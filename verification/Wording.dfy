// What every minted payload says, member by member, and when each is minted.
module Wording {
  import opened Prelude
  import opened Text
  import opened Dates
  import opened Base64Url
  import opened Jose
  import Td3
  import PassiveAuth
  import Wia
  import opened Verification
  import opened Receipt
  import opened Server
  import opened Runs
  import opened Provenance
  import opened Completeness

  // ---- The JOSE types ----

  // One type for each kind of payload.
  lemma TypOfMinted(run: Run, j: nat)
    requires run.Steps() && j < |run.requests|
    ensures run.Reply(j).ReceiptIssued? ==> run.Reply(j).minted.typ == "application/privasys-ivr+jws"
    ensures run.Reply(j).ChallengeIssued? ==> run.Reply(j).minted.typ == "application/privasys-aa-challenge+jws"
    ensures run.Reply(j).Disclosed? ==> run.Reply(j).minted.typ == "dc+sd-jwt"
  {
    ReplyKind(run, j);
    if run.Reply(j).ReceiptIssued? {
      var doc, bio, holder := IssuedFrom(run, j);
    } else if run.Reply(j).Disclosed? {
      DisclosedTyp(run.env, run.At(j), run.requests[j].prove);
    }
  }

  lemma DisclosedTyp(env: Env, s: State, q: ProveRequest)
    requires ProveOutcome(env, s, q).Ok? && ProveOutcome(env, s, q).value.Disclosed?
    ensures ProveOutcome(env, s, q).value.minted.typ == "dc+sd-jwt"
  {
    var ivr, voucher := VerifyIvr(env.c, s.log, q.ivr, s.now).value, VoucherGate(env, q).value;
    var payload := Ceremony(env, s, q, ivr, B64Field(q.holderPub).value, B64Field(q.holderSig).value, voucher).value;
    assert ProveOutcome(env, s, q).value.minted == Minted(DISCLOSURE_TYP, payload);
  }

  // A challenge names its nonce and its end.
  lemma ChallengeSays(run: Run, j: nat)
    requires run.Steps() && j < |run.requests| && run.Reply(j).ChallengeIssued?
    ensures run.requests[j].Challenge?
    ensures var p := run.Reply(j).minted.payload;
            && p.Obj? && p.members.Keys == {"n", "exp"} && p.Get("n") == Str(Encode(run.requests[j].nonce))
            && p.Get("exp") == Int(run.At(j).now + run.env.cfg.challengeTtl)
  {
    ReplyKind(run, j);
  }

  // ---- Receipts ----

  // What was found of a document: the certified fields, its type and issuer, with their
  // defaults, its day of expiry, the check digits, and whether a signing time was covered.
  ghost predicate Found(env: Env, s: State, q: IdentityRequest, doc: DocResult, pa: PassiveAuth.PAResult)
    requires 1 in q.doc.groups && q.doc.sod.Some?
  {
    && PassiveAuth.Authentic(env.lib, q.doc.sod.value, s.anchors, pa)
    && CertifiedFields(q.doc.groups, s.today.year, env.decode) == Ok(doc.fields)
    && doc.docType == (if "document_type" in doc.fields then doc.fields["document_type"] else "P")
    && doc.issuingState == (if "issuing_state" in doc.fields then doc.fields["issuing_state"] else pa.country)
    && doc.docExpiry == (if "doc_expiry" in doc.fields then doc.fields["doc_expiry"] else "")
    && doc.passiveAuth && doc.notExpired && Td3.CheckDigitsConsistent(q.doc.groups[1]) == Ok(doc.mrzValid)
    && doc.dscTimeValid == (if pa.signingTimeVerified then Some(true) else None)
    && VisualMatch(q.doc.groups[1], q.doc.lines) == Ok(doc.viz)
    && CheckActiveAuth(env, s, q.aa, q.doc.groups) == Ok(doc.chipAuth)
  }

  lemma ExaminedIsFound(env: Env, s: State, q: IdentityRequest) returns (pa: PassiveAuth.PAResult)
    requires Examine(env, s, q).Ok?
    ensures 1 in q.doc.groups && q.doc.sod.Some? && Found(env, s, q, Examine(env, s, q).value, pa)
  {
    pa := PassiveAuth.Verify(env.lib, q.doc.sod.value, s.anchors).value;
    PassiveAuth.VerifiedIsAuthentic(env.lib, q.doc.sod.value, s.anchors, pa);
  }

  // Every issued receipt says exactly what was found, about exactly the committed values; the
  // reply hands out the salts and the fields, and the outcome of the visual comparison.
  lemma ReceiptSaysWhatWasFound(run: Run, j: nat)
    returns (doc: DocResult, pa: PassiveAuth.PAResult, bio: BioResult, holder: bytes, values: Td3.Fields)
    requires run.Steps() && j < |run.requests| && run.Reply(j).ReceiptIssued?
    ensures run.requests[j].Identity?
    ensures var q, s := run.requests[j].identity, run.At(j);
            && 1 in q.doc.groups && q.doc.sod.Some? && Found(run.env, s, q, doc, pa)
            && q.bio == Some(bio) && bio.faceMatch && q.holderPub != "" && Decode(q.holderPub) == Some(holder)
            && IsCommitted(values, doc.fields, if 2 in q.doc.groups then q.doc.groups[2] else [])
    ensures var q, s, r, cfg := run.requests[j], run.At(j), run.Reply(j), run.env.cfg;
            && r.fields == doc.fields && r.viz == doc.viz
            && r.salts.Keys == values.Keys && (forall f :: f in values ==> r.salts[f] == Encode(q.salt(f)))
            && exists commitments ::
                 && AreCommitments(run.env.c, commitments, values, q.salt)
                 && ReceiptSays(run.env.c, r.minted.payload, cfg.measurement, cfg.ivrTtl, doc, bio, holder, commitments,
                                q.jti, s.now)
  {
    doc, bio, holder := IssuedFrom(run, j);
    var q, s, env := run.requests[j].identity, run.At(j), run.env;
    pa := ExaminedIsFound(env, s, q);
    var dg2 := if 2 in q.doc.groups then q.doc.groups[2] else [];
    values := Committed(doc.fields, dg2);
    CommittedIs(doc.fields, dg2);
    CommitmentsAre(env.c, values, run.requests[j].salt);
    ReceiptSaysAll(env.c, env.cfg.measurement, env.cfg.ivrTtl, doc, bio, holder,
                   Commitments(env.c, values, run.requests[j].salt), run.requests[j].jti, s.now);
    IssuedReply(run, j);
  }

  lemma IssuedReply(run: Run, j: nat)
    requires run.Steps() && j < |run.requests| && run.Reply(j).ReceiptIssued?
    ensures run.requests[j].Identity? && Examine(run.env, run.At(j), run.requests[j].identity).Ok?
    ensures var doc := Examine(run.env, run.At(j), run.requests[j].identity).value;
            && run.Reply(j).salts == Salts(CommittedAt(run, j), run.requests[j].salt)
            && run.Reply(j).fields == doc.fields && run.Reply(j).viz == doc.viz
  {
    ReplyKind(run, j);
  }

  // ---- Tokens ----

  // The claim of each path.
  ghost function ClaimOf(q: ProveRequest): string {
    match q.path
    case AgeOverPath => "age_over_" + Decimal(if q.threshold.None? then 0 else q.threshold.value)
    case AgeBandPath => "age_band"
    case FieldPath => q.field
    case DocumentValidPath => "document_valid"
    case PresencePath => "holder_present"
  }

  lemma ClaimIs(q: ProveRequest)
    ensures AttrKey(q) == "privasys:" + ClaimOf(q) && RemovePrefix(AttrKey(q)) == ClaimOf(q)
  {
    assert AttrKey(q)[|PREFIX|..] == ClaimOf(q);
  }

  // Whom and what a token names besides its claim.
  ghost predicate IsContext(x: TokenContext, env: Env, s: State, q: ProveRequest, holder: bytes, voucher: string) {
    && x.sub == q.sub && x.rpId == q.rpId && x.holderPub == holder && x.voucher == voucher
    && x.ttl == env.cfg.tokenTtl && x.now == s.now
    && x.iss == if env.cfg.issuer != "" then env.cfg.issuer
                else if q.headers.host == "" then "urn:privasys:identity-verifier"
                else "https://" + Strip(Split(q.headers.host, ',')[0])
  }

  // What a presence check adds to the evidence, and no other path does.
  ghost predicate IsExtra(q: ProveRequest, now: int, extra: map<string, Json>) {
    if q.path.PresencePath? then
      && extra.Keys == {"presence"} && q.capture.Matched? && extra["presence"].Obj?
      && extra["presence"].members.Keys == {"face_match", "liveness_score", "checked_at"}
      && extra["presence"].Get("face_match") == Bool(true) && extra["presence"].Get("checked_at") == Int(now)
      && extra["presence"].Get("liveness_score") == Dec(q.capture.bio.liveness, 4)
    else extra == map[]
  }

  lemma DerivedWording(env: Env, s: State, q: ProveRequest, ivr: Json)
    requires Derive(env, s, q, ivr).Discloses?
    ensures var d := Derive(env, s, q, ivr); d.claim == ClaimOf(q) && IsExtra(q, s.now, d.extra)
  {}

  // A capture that opens the portrait commitment but does not match: the one failure that may
  // be retried.
  ghost predicate Mismatched(env: Env, q: ProveRequest, ivr: Json) {
    && q.path.PresencePath? && q.dg2 != "" && q.salt != "" && Decode(q.dg2).Some? && q.capture.Matched?
    && !q.capture.bio.faceMatch && Open(env.c, ivr, "picture_dg2", q.dg2, q.salt).None?
  }

  lemma RetryableExactly(env: Env, s: State, q: ProveRequest, ivr: Json)
    ensures Derive(env, s, q, ivr) == Fails(true) <==> Mismatched(env, q, ivr)
  {}

  // What the ceremony mints: the derivation's own token when the holder check passes and it
  // discloses, and otherwise a failure for the requested claim.
  lemma CeremonyMintsExactly(env: Env, s: State, q: ProveRequest, ivr: Json, holder: bytes, sig: bytes, voucher: string)
    requires q.ts.Some? && Ceremony(env, s, q, ivr, holder, sig, voucher).Ok?
    ensures var t, d, x := Ceremony(env, s, q, ivr, holder, sig, voucher), Derive(env, s, q, ivr),
                           Context(env, s, q, holder, voucher);
            var passed := CheckHolder(env.c, ivr, holder, q.rpId, q.nonce, q.ts.value, sig, s.now).Ok?;
            if passed && d.Discloses? then TokenPayload(env.c, ivr, x, d.claim, d.value, d.extra, None) == t
            else TokenPayload(env.c, ivr, x, RemovePrefix(AttrKey(q)), Bool(false), map[],
                              Some(passed && d == Fails(true))) == t
  {
    if CheckHolder(env.c, ivr, holder, q.rpId, q.nonce, q.ts.value, sig, s.now).Ok? {
      HolderNeedsPoint(env.c, ivr, holder, q.rpId, q.nonce, q.ts.value, sig, s.now);
    }
  }

  // Everything a token says: for a success the value and evidence of its derivation, for a
  // failure false and whether it may be retried.
  ghost predicate SaysExactly(env: Env, s: State, q: ProveRequest, ivr: Json, holder: bytes, sig: bytes,
                              voucher: string, x: TokenContext, value: Json, failure: Option<bool>,
                              extra: map<string, Json>, t: Json) {
    && q.ts.Some? && env.c.point(holder).Some? && IsContext(x, env, s, q, holder, voucher)
    && TokenSays(t, x, env.c.point(holder).value, ClaimOf(q), value, failure)
    && EvidenceSays(t.Get("evidence"), ivr, voucher, extra)
    && var passed := CheckHolder(env.c, ivr, holder, q.rpId, q.nonce, q.ts.value, sig, s.now).Ok?;
    && (failure.None? <==> passed && Derive(env, s, q, ivr).Discloses?)
    && (failure.None? ==> value == Derive(env, s, q, ivr).value && IsExtra(q, s.now, extra))
    && (failure.Some? ==> value == Bool(false) && extra == map[]
                          && (failure.value <==> passed && Mismatched(env, q, ivr)))
  }

  lemma CeremonySays(env: Env, s: State, q: ProveRequest, ivr: Json, holder: bytes, sig: bytes, voucher: string)
    returns (x: TokenContext, value: Json, failure: Option<bool>, extra: map<string, Json>)
    requires q.ts.Some? && Ceremony(env, s, q, ivr, holder, sig, voucher).Ok?
    ensures SaysExactly(env, s, q, ivr, holder, sig, voucher, x, value, failure, extra,
                        Ceremony(env, s, q, ivr, holder, sig, voucher).value)
  {
    var d := Derive(env, s, q, ivr);
    var passed := CheckHolder(env.c, ivr, holder, q.rpId, q.nonce, q.ts.value, sig, s.now).Ok?;
    x := Context(env, s, q, holder, voucher);
    CeremonyMintsExactly(env, s, q, ivr, holder, sig, voucher);
    ClaimIs(q);
    RetryableExactly(env, s, q, ivr);
    if passed && d.Discloses? {
      DerivedWording(env, s, q, ivr);
      value, failure, extra := d.value, None, d.extra;
    } else {
      value, failure, extra := Bool(false), Some(passed && d == Fails(true)), map[];
    }
    TokenSaysAll(env.c, ivr, x, ClaimOf(q), value, extra, failure);
  }

  // Every token of every run says exactly that, for the receipt and the key that were
  // presented and the voucher the gate let through, which the reply names too.
  lemma TokenSaysExactly(run: Run, i: nat)
    returns (ivr: Json, holder: bytes, sig: bytes, voucher: string, x: TokenContext, value: Json, failure: Option<bool>,
             extra: map<string, Json>)
    requires run.Steps() && i < |run.requests| && run.Reply(i).Disclosed?
    ensures run.requests[i].Prove?
    ensures var q, s := run.requests[i].prove, run.At(i);
            && VerifyIvr(run.env.c, s.log, q.ivr, s.now) == Ok(ivr) && VoucherGate(run.env, q) == Ok(voucher)
            && B64Field(q.holderPub) == Ok(holder) && B64Field(q.holderSig) == Ok(sig)
            && SaysExactly(run.env, s, q, ivr, holder, sig, voucher, x, value, failure, extra,
                           run.Reply(i).minted.payload)
    ensures run.Reply(i).voucherJti == (if voucher == "" then None else Some(voucher))
  {
    ivr, holder, sig, voucher := DisclosureGuards(run, i);
    x, value, failure, extra := CeremonySays(run.env, run.At(i), run.requests[i].prove, ivr, holder, sig, voucher);
  }

  // ---- The gates ----

  // A text field holds bytes exactly when it is not empty and decodes.
  lemma FieldBytes(text: string, b: bytes)
    ensures B64Field(text) == Ok(b) <==> text != "" && Decode(text) == Some(b)
  {}

  // The voucher gate passes exactly for a voucher that authorises the key and names no other
  // party, and without one for the holder's own use or when none is required.
  lemma VoucherGateExactly(env: Env, q: ProveRequest, jti: string)
    ensures var present := exists k :: k in Split(q.headers.claims, ',') && k != "";
            VoucherGate(env, q) == Ok(jti) <==>
            if present then
              && "privasys:" + ClaimOf(q) in Split(q.headers.claims, ',')
              && (Strip(q.headers.rpId) == "" || Strip(q.headers.rpId) == q.rpId) && jti == q.headers.jti
            else jti == "" && (!env.cfg.requireVoucher || q.rpId in env.cfg.selfAudiences)
  {
    ClaimIs(q);
    AuthorisedIs(q.headers);
    assert "privasys:" + ClaimOf(q) != "";
  }

  lemma AuthorisedIs(h: Headers)
    ensures forall k :: k in Authorised(h) <==> k in Split(h.claims, ',') && k != ""
    ensures Authorised(h) != [] <==> exists k :: k in Split(h.claims, ',') && k != ""
  {
    if Authorised(h) != [] {
      assert Authorised(h)[0] in Authorised(h);
    }
  }

  // The token of a challenge passes exactly when the key signed it, it has not expired, and it
  // names this challenge.
  lemma ChallengeTokenExactly(env: Env, s: State, blk: AaBlock)
    ensures CheckChallengeToken(env, s, blk).Ok? <==>
            && JwsVerify(env.c, s.log, blk.token).Ok? && JwsVerify(env.c, s.log, blk.token).value.Obj?
            && var p := JwsVerify(env.c, s.log, blk.token).value;
               && p.Get("n") == Str(blk.challenge)
               && Wia.ToInt(if "exp" in p.members then p.members["exp"] else Int(0)).Ok?
               && Wia.ToInt(if "exp" in p.members then p.members["exp"] else Int(0)).value >= s.now
  {}

  // The request answers for the chip: a challenge and its signature, both of which decode.
  predicate AnswersForChip(q: IdentityRequest) {
    && q.aa.Some? && q.aa.value.challenge != "" && Decode(q.aa.value.challenge).Some?
    && q.aa.value.signature != "" && Decode(q.aa.value.signature).Some?
  }

  // A document with a DG15 is never enrolled without a challenge and its answer.
  lemma ChipIsAsked(run: Run, j: nat)
    requires run.Steps() && j < |run.requests| && run.Reply(j).ReceiptIssued?
    ensures run.requests[j].Identity?
    ensures 15 in run.requests[j].identity.doc.groups ==> AnswersForChip(run.requests[j].identity)
  {
    IssuedReply(run, j);
    if 15 in run.requests[j].identity.doc.groups {
      AskedWhenExamined(run.env, run.At(j), run.requests[j].identity);
    }
  }

  lemma AskedWhenExamined(env: Env, s: State, q: IdentityRequest)
    requires Examine(env, s, q).Ok? && 15 in q.doc.groups
    ensures AnswersForChip(q)
  {}

  // ---- Refusals ----

  // A request that lacks a member its path asks for is failed before anything is opened.
  lemma MissingMemberFails(env: Env, s: State, q: ProveRequest, ivr: Json)
    requires match q.path
             case AgeOverPath => q.birthdate == "" || q.salt == "" || q.threshold.None?
             case AgeBandPath => q.birthdate == "" || q.salt == ""
             case FieldPath => q.field == "" || q.value == "" || q.salt == ""
             case PresencePath => q.dg2 == "" || q.salt == "" || q.capture.NoSelfie?
             case DocumentValidPath => false
    ensures Derive(env, s, q, ivr) == Raises(ValueFault)
  {}

  // A refused field is none of the twelve.
  lemma OnlyCertifiedFields(c: Primitives, ivr: Json, field: string, value: string, salt: string)
    requires field !in {"given_name", "family_name", "birthdate", "nationality", "document_number", "document_type",
                        "issuing_state", "sex", "doc_expiry", "place_of_birth", "personal_number", "picture_id"}
    ensures ProveField(c, ivr, field, value, salt) == Raises(ValueFault)
  {}

  // A tampered group, an untrusted signer or an expired document is answered with 400, data
  // that breaks a parser with 500, and neither changes anything.
  lemma RejectedDocument(env: Env, s: State, q: IdentityRequest, salt: string -> Salt, jti: bytes)
    requires s.configured && B64Field(q.holderPub).Ok?
    requires Wia.Enforce(env.c, env.cfg.requireWia, q.wia, Wia.Keys(s.jwks), B64Field(q.holderPub).value, s.now).Ok?
    requires AuthenticateAndExtract(env.lib, s.anchors, q.doc, s.today, env.decode).Err?
    ensures var fault := AuthenticateAndExtract(env.lib, s.anchors, q.doc, s.today, env.decode).fault;
            Step(env, s, Identity(q, salt, jti)) ==
            (s, Refused(if fault == ValueFault || fault == VerificationFault then 400 else 500))
  {
    var r := AuthenticateAndExtract(env.lib, s.anchors, q.doc, s.today, env.decode);
    assert IdentityOutcome(env, s, q, salt, jti) == Err(r.fault) by {
      assert Examine(env, s, q) == Err(r.fault);
    }
  }

  // A master list that is refused changes nothing; for a ValueError the answer is 400.
  lemma RejectedList(env: Env, s: State, ml: bytes, jwks: Option<Json>, m: Manager)
    requires ml != [] && ExtractAnchors(env, ml).Err?
    ensures ConfigureStep(env, s, true, Some(ml), jwks, m).0 == s
    ensures ConfigureStep(env, s, true, Some(ml), jwks, m).1 ==
            Refused(if ExtractAnchors(env, ml) in {Err(ValueFault), Err(VerificationFault)} then 400 else 500)
  {}

  // A JWKS may also come as its JSON text; text that is none is refused, as is anything else
  // that is no JWKS document.
  lemma JwksAsText(env: Env, s: State, ml: Option<bytes>, text: string, doc: Json, m: Manager)
    requires env.c.loads(env.c.utf8(text)) == Some(doc) && doc.Obj?
    ensures ConfigureStep(env, s, false, ml, Some(Str(text)), m) == ConfigureStep(env, s, false, ml, Some(doc), m)
  {}

  lemma NoJwksDocument(env: Env, s: State, jwks: Json, m: Manager)
    requires !jwks.Obj? && jwks != Null
    requires jwks.Str? ==> env.c.loads(env.c.utf8(jwks.s)).None?
    ensures ConfigureStep(env, s, false, None, Some(jwks), m) == (s, Refused(if jwks.Str? then 400 else 500))
  {}

  // A frozen process answers 503 to everything but configuration.
  lemma FrozenAnswers(env: Env, s: State, q: Request)
    requires !s.configured && (q.Challenge? || q.Identity? || q.Prove?)
    ensures Step(env, s, q) == (s, Refused(503))
  {}
}

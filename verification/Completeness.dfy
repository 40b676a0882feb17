// An honest holder of a receipt gets the disclosure, in any run.
module Completeness {
  import opened Prelude
  import opened Text
  import opened Dates
  import opened Base64Url
  import opened Jose
  import Wia
  import opened Td3
  import opened Verification
  import opened Receipt
  import opened Server
  import opened Runs
  import opened Provenance

  lemma ExtendRun(run: Run, q: Request) returns (longer: Run)
    requires run.Steps()
    ensures longer.env == run.env && longer.requests == run.requests + [q] && longer.Steps()
    ensures (run.states + [longer.At(|run.states|)], run.replies + [longer.Reply(|run.replies|)])
            == (longer.states, longer.replies)
    ensures (longer.At(|run.states|), longer.Reply(|run.replies|)) == Step(run.env, run.At(|run.requests|), q)
  {
    var n := |run.requests|;
    var (after, reply) := Step(run.env, run.states[n], q);
    longer := Run(run.env, run.states + [after], run.requests + [q], run.replies + [reply]);
    forall k | 0 <= k < n + 1 ensures longer.Follows(k) {
      if k < n {
        assert run.Follows(k);
      }
    }
  }

  // Every list of requests has a run.
  lemma {:induction false} RunExists(env: Env, start: State, requests: seq<Request>) returns (run: Run)
    ensures run.env == env && run.requests == requests && run.Steps() && run.states[0] == start
  {
    if requests == [] {
      run := Run(env, [start], [], []);
    } else {
      var n := |requests| - 1;
      run := RunExists(env, start, requests[..n]);
      run := ExtendRun(run, requests[n]);
      assert requests == requests[..n] + [requests[n]];
    }
  }

  // The log only grows.
  lemma {:induction false} LogKeeps(run: Run, j: nat, n: nat)
    requires run.Steps() && j < n <= |run.requests| && Mints(run.Reply(j))
    ensures run.Reply(j).minted in run.At(n).log
  {
    assert run.Follows(n - 1);
    StepLog(run.env, run.At(n - 1), run.requests[n - 1]);
    if j < n - 1 {
      LogKeeps(run, j, n - 1);
    }
  }

  // A receipt the run issued is accepted until it expires.
  lemma ReceiptAccepted(run: Run, j: nat, i: nat)
    requires run.Valid() && j < i < |run.requests| && run.Reply(j).ReceiptIssued?
    requires run.At(i).now <= run.At(j).now + run.env.cfg.ivrTtl
    ensures var m := run.Reply(j).minted;
            VerifyIvr(run.env.c, run.At(i).log, JwsSign(run.env.c, m), run.At(i).now) == Ok(m.payload)
              && IvrShaped(m.payload)
  {
    IssuedPasses(run, j);
    LogKeeps(run, j, i);
    LoggedIsAccepted(run.env.c, run.At(i).log, run.Reply(j).minted, run.At(j).now + run.env.cfg.ivrTtl, run.At(i).now);
  }

  lemma LoggedIsAccepted(c: Primitives, log: set<Minted>, m: Minted, exp: int, now: int)
    requires c.Sound() && m in log && Passes(m.payload, exp) && now <= exp
    ensures VerifyIvr(c, log, JwsSign(c, m), now) == Ok(m.payload)
  {
    VerifyUndoesSign(c, log, m);
    PassingIsAccepted(c, log, JwsSign(c, m), m.payload, exp, now);
  }

  // The members verify_ivr looks at.
  predicate Passes(p: Json, exp: int) {
    && IvrShaped(p) && p.Get("exp") == Int(exp)
    && p.Get("doc").Get("passive_auth") == Bool(true) && p.Get("biometric").Get("face_match") == Bool(true)
  }

  lemma PassingIsAccepted(c: Primitives, log: set<Minted>, token: string, p: Json, exp: int, now: int)
    requires JwsVerify(c, log, token) == Ok(p) && Passes(p, exp) && now <= exp
    ensures VerifyIvr(c, log, token, now) == Ok(p)
  {}

  lemma IssuedPasses(run: Run, j: nat)
    requires run.Steps() && j < |run.requests| && run.Reply(j).ReceiptIssued?
    ensures Passes(run.Reply(j).minted.payload, run.At(j).now + run.env.cfg.ivrTtl)
  {
    var doc, bio, holder := IssuedFrom(run, j);
    ReceiptPasses(run.env, run.At(j), run.requests[j].identity, doc, bio, holder, run.requests[j].salt,
                  run.requests[j].jti);
  }

  lemma ReceiptPasses(env: Env, s: State, q: IdentityRequest, doc: DocResult, bio: BioResult, holder: bytes,
                      salt: string -> Salt, jti: bytes)
    requires doc.passiveAuth && bio.faceMatch
    ensures Passes(IvrFor(env, s, q, doc, bio, holder, salt, jti).payload, s.now + env.cfg.ivrTtl)
  {
    IvrMembers(env.c, env.cfg.measurement, env.cfg.ivrTtl, doc, bio, holder,
               Commitments(env.c, Committed(doc.fields, Portrait(q.doc.groups)), salt), jti, s.now);
    RecordedPasses(IvrFor(env, s, q, doc, bio, holder, salt, jti).payload, doc, bio, s.now + env.cfg.ivrTtl);
  }

  lemma RecordedPasses(p: Json, doc: DocResult, bio: BioResult, exp: int)
    requires doc.passiveAuth && bio.faceMatch
    requires p.Get("jti") != Null && p.Get("iat") != Null && p.Get("exp") == Int(exp)
    requires p.Get("doc") == DocMember(doc) && p.Get("biometric") == BioMember(bio)
    ensures Passes(p, exp)
  {
    DocMembers(doc);
  }

  // The request of an honest holder: any token that verifies to the receipt, its own key and
  // signature, whatever the attestation and voucher gates ask for.
  ghost predicate Honest(run: Run, j: nat, i: nat)
    requires run.Valid() && j < i < |run.requests| && run.Reply(j).ReceiptIssued?
  {
    && run.requests[i].Prove? && run.At(i).configured
    && var q, s, env, ivr := run.requests[i].prove, run.At(i), run.env, run.Reply(j).minted;
    && VerifyIvr(env.c, s.log, q.ivr, s.now) == Ok(ivr.payload)
    && q.ivr != "" && q.sub != "" && q.rpId != "" && q.nonce != "" && q.ts.Some?
    && B64Field(q.holderPub).Ok? && B64Field(q.holderSig).Ok?
    && Wia.Enforce(env.c, env.cfg.requireWia, q.wia, Wia.Keys(s.jwks), B64Field(q.holderPub).value, s.now).Ok?
    && VoucherGate(env, q).Ok?
    && CheckHolder(env.c, ivr.payload, B64Field(q.holderPub).value, q.rpId, q.nonce, q.ts.value,
                   B64Field(q.holderSig).value, s.now).Ok?
  }

  lemma HolderKeyDecodes(c: Primitives, ivr: Json, holder: bytes, rpId: string, nonce: string, ts: int, sig: bytes,
                         now: int)
    requires CheckHolder(c, ivr, holder, rpId, nonce, ts, sig, now).Ok?
    ensures FromRaw(c, holder).Ok?
  {}

  // An honest request reaches its ceremony, and the reply carries what the ceremony mints.
  lemma HonestReachesCeremony(run: Run, j: nat, i: nat)
    requires run.Valid() && j < i < |run.requests| && run.Reply(j).ReceiptIssued? && Honest(run, j, i)
    ensures var q, ivr := run.requests[i].prove, run.Reply(j).minted.payload;
            var r := Ceremony(run.env, run.At(i), q, ivr, B64Field(q.holderPub).value, B64Field(q.holderSig).value,
                              VoucherGate(run.env, q).value);
            r.Ok? ==> run.Reply(i).Disclosed? && run.Reply(i).minted.payload == r.value
  {
    var q := run.requests[i].prove;
    IssuedPasses(run, j);
    var ivr, voucher := run.Reply(j).minted.payload, VoucherGate(run.env, q).value;
    var holder, sig := B64Field(q.holderPub).value, B64Field(q.holderSig).value;
    var r := Ceremony(run.env, run.At(i), q, ivr, holder, sig, voucher);
    if r.Ok? {
      GuardsPassed(run.env, run.At(i), q, ivr, holder, sig, voucher, r.value);
      ProveReply(run, i);
    }
  }

  lemma GuardsPassed(env: Env, s: State, q: ProveRequest, ivr: Json, holder: bytes, sig: bytes, voucher: string,
                     p: Json)
    requires q.ivr != "" && q.sub != "" && q.rpId != "" && q.nonce != "" && q.ts.Some?
    requires VerifyIvr(env.c, s.log, q.ivr, s.now) == Ok(ivr)
    requires B64Field(q.holderPub) == Ok(holder) && B64Field(q.holderSig) == Ok(sig)
    requires Wia.Enforce(env.c, env.cfg.requireWia, q.wia, Wia.Keys(s.jwks), holder, s.now).Ok?
    requires VoucherGate(env, q) == Ok(voucher)
    requires Ceremony(env, s, q, ivr, holder, sig, voucher) == Ok(p)
    ensures ProveOutcome(env, s, q) ==
            Ok(Disclosed(Minted(DISCLOSURE_TYP, p), if voucher == "" then None else Some(voucher)))
  {}

  lemma ProveReply(run: Run, i: nat)
    requires run.Steps() && i < |run.requests| && run.requests[i].Prove? && run.At(i).configured
    requires ProveOutcome(run.env, run.At(i), run.requests[i].prove).Ok?
    ensures run.Reply(i) == ProveOutcome(run.env, run.At(i), run.requests[i].prove).value
  {
    assert run.Follows(i);
    var outcome := ProveOutcome(run.env, run.At(i), run.requests[i].prove);
    assert run.Reply(i) == Conclude(run.At(i), outcome).1;
  }

  // ---- What an honest request gets ----

  // The holder opens what request j committed, with the value and the salt of the receipt.
  ghost predicate Own(run: Run, j: nat, field: string, value: string, salt: string)
    requires run.Steps() && j < |run.requests| && run.Reply(j).ReceiptIssued?
    requires run.requests[j].Identity? && Examine(run.env, run.At(j), run.requests[j].identity).Ok?
  {
    && field in CommittedAt(run, j) && value == CommittedAt(run, j)[field]
    && field in run.Reply(j).salts && salt == run.Reply(j).salts[field]
  }

  // Request i opens its own field, on every path.
  ghost predicate OpensOwn(run: Run, j: nat, i: nat)
    requires run.Steps() && j < |run.requests| && run.Reply(j).ReceiptIssued? && i < |run.requests|
    requires run.requests[i].Prove?
    requires run.requests[j].Identity? && Examine(run.env, run.At(j), run.requests[j].identity).Ok?
  {
    var q := run.requests[i].prove;
    match q.path
    case FieldPath => q.field in CERTIFIED_FIELDS && Own(run, j, q.field, q.value, q.salt)
    case AgeOverPath => q.threshold.Some? && Own(run, j, "birthdate", q.birthdate, q.salt)
    case AgeBandPath => Own(run, j, "birthdate", q.birthdate, q.salt)
    case DocumentValidPath => true
    case PresencePath => Own(run, j, PORTRAIT_FIELD, q.dg2, q.salt)
  }

  // What the request must meet besides: a value, a real calendar date, a matching face.
  predicate Answerable(q: ProveRequest) {
    match q.path
    case FieldPath => q.value != ""
    case AgeOverPath => ParseDate(q.birthdate).Some?
    case AgeBandPath => ParseDate(q.birthdate).Some?
    case DocumentValidPath => true
    case PresencePath => q.capture.Matched? && q.capture.bio.faceMatch
  }

  lemma SaltsOfReceipt(run: Run, j: nat)
    requires run.Steps() && j < |run.requests| && run.Reply(j).ReceiptIssued?
    ensures run.requests[j].Identity? && Examine(run.env, run.At(j), run.requests[j].identity).Ok?
    ensures run.Reply(j).salts == Salts(CommittedAt(run, j), run.requests[j].salt)
  {
    ReplyKind(run, j);
  }

  lemma SaltNotEmpty(salt: Salt)
    ensures Encode(salt) != ""
  {
    EncodedAlphabet(salt);
  }

  // One's own value and salt open the commitment.
  lemma OwnOpens(run: Run, j: nat, field: string, value: string, salt: string)
    requires run.Valid() && j < |run.requests| && run.Reply(j).ReceiptIssued?
    requires run.requests[j].Identity? && Examine(run.env, run.At(j), run.requests[j].identity).Ok?
    requires Own(run, j, field, value, salt)
    ensures Open(run.env.c, run.Reply(j).minted.payload, field, value, salt).None? && salt != ""
  {
    var _ := ReceiptBehind(run, j);
    SaltsOfReceipt(run, j);
    OwnSaltOpens(run.env.c, run.Reply(j).minted.payload, CommittedAt(run, j), run.requests[j].salt, field);
    SaltNotEmpty(run.requests[j].salt(field));
  }

  lemma PortraitDecodes(run: Run, j: nat, text: string)
    requires run.Steps() && j < |run.requests| && run.requests[j].Identity?
    requires Examine(run.env, run.At(j), run.requests[j].identity).Ok?
    requires PORTRAIT_FIELD in CommittedAt(run, j) && text == CommittedAt(run, j)[PORTRAIT_FIELD]
    ensures text != "" && Decode(text).Some?
  {
    var q := run.requests[j].identity;
    var fields, dg2 := Examine(run.env, run.At(j), q).value.fields, Portrait(q.doc.groups);
    ResultIsAuthentic(run.env.lib, run.At(j).anchors, q.doc, run.At(j).today, run.env.decode);
    FieldsAreKnown(q.doc.groups, run.At(j).today.year, run.env.decode);
    CommittedPortrait(fields, dg2);
  }

  // With an open commitment each path discloses exactly when it can answer.
  lemma OpenDerives(env: Env, s: State, q: ProveRequest, ivr: Json)
    requires match q.path
             case FieldPath =>
               q.field in CERTIFIED_FIELDS && q.salt != "" && Open(env.c, ivr, q.field, q.value, q.salt).None?
             case AgeOverPath =>
               q.threshold.Some? && q.salt != "" && Open(env.c, ivr, "birthdate", q.birthdate, q.salt).None?
             case AgeBandPath => q.salt != "" && Open(env.c, ivr, "birthdate", q.birthdate, q.salt).None?
             case DocumentValidPath => true
             case PresencePath =>
               && q.dg2 != "" && Decode(q.dg2).Some? && q.salt != ""
               && Open(env.c, ivr, PORTRAIT_FIELD, q.dg2, q.salt).None?
    ensures Derive(env, s, q, ivr).Discloses? <==> Answerable(q)
  {
    assert "" !in CERTIFIED_FIELDS;
    assert q.birthdate == "" ==> ParseDate(q.birthdate).None? by {
      assert |Split("", '-')| == 1;
    }
  }

  lemma OwnDerives(run: Run, j: nat, i: nat)
    requires run.Valid() && j < |run.requests| && run.Reply(j).ReceiptIssued? && i < |run.requests|
    requires run.requests[i].Prove?
    requires run.requests[j].Identity? && Examine(run.env, run.At(j), run.requests[j].identity).Ok?
    requires OpensOwn(run, j, i)
    ensures Derive(run.env, run.At(i), run.requests[i].prove, run.Reply(j).minted.payload).Discloses? <==>
            Answerable(run.requests[i].prove)
  {
    var q := run.requests[i].prove;
    match q.path {
      case FieldPath => OwnOpens(run, j, q.field, q.value, q.salt);
      case AgeOverPath => OwnOpens(run, j, "birthdate", q.birthdate, q.salt);
      case AgeBandPath => OwnOpens(run, j, "birthdate", q.birthdate, q.salt);
      case DocumentValidPath =>
      case PresencePath =>
        OwnOpens(run, j, PORTRAIT_FIELD, q.dg2, q.salt);
        PortraitDecodes(run, j, q.dg2);
    }
    OpenDerives(run.env, run.At(i), q, run.Reply(j).minted.payload);
  }

  lemma DerivedTokenMinted(env: Env, s: State, q: ProveRequest, ivr: Json, holder: bytes, sig: bytes, voucher: string,
                           d: Derivation)
    requires q.ts.Some? && IvrShaped(ivr) && d.Discloses? && Derive(env, s, q, ivr) == d
    requires CheckHolder(env.c, ivr, holder, q.rpId, q.nonce, q.ts.value, sig, s.now).Ok?
    ensures var r := Ceremony(env, s, q, ivr, holder, sig, voucher); r.Ok? && r.value.Get("failure") == Null
  {
    HolderKeyDecodes(env.c, ivr, holder, q.rpId, q.nonce, q.ts.value, sig, s.now);
    TokenShape(env.c, ivr, Context(env, s, q, holder, voucher), d.claim, d.value, d.extra, None);
  }

  // An honest request succeeds exactly when its derivation discloses.
  lemma HonestSucceeds(run: Run, j: nat, i: nat)
    requires run.Valid() && j < i < |run.requests| && run.Reply(j).ReceiptIssued? && Honest(run, j, i)
    ensures var d := Derive(run.env, run.At(i), run.requests[i].prove, run.Reply(j).minted.payload);
            && (Succeeded(run, i) <==> d.Discloses?)
            && (Succeeded(run, i) ==> run.Reply(i).minted.payload.Get("value") == d.value)
  {
    var q, s, env, ivr := run.requests[i].prove, run.At(i), run.env, run.Reply(j).minted.payload;
    var holder, sig, voucher := B64Field(q.holderPub).value, B64Field(q.holderSig).value, VoucherGate(env, q).value;
    IssuedPasses(run, j);
    if Derive(env, s, q, ivr).Discloses? {
      HonestReachesCeremony(run, j, i);
      DerivedTokenMinted(env, s, q, ivr, holder, sig, voucher, Derive(env, s, q, ivr));
    }
    if Succeeded(run, i) {
      var ivr', holder', sig', voucher' := DisclosureGuards(run, i);
      TokenOfReceipt(env, s, q, ivr', holder', sig', voucher', run.Reply(i).minted.payload);
    }
  }

  // The honest holder of a receipt, opening what it committed, gets a success on every path
  // exactly when the request can be answered: a field needs a value that is not empty, an age
  // a birth date that is a calendar date, presence a capture that matches. The success
  // carries the committed value or the stated function of it.
  lemma HonestDisclosure(run: Run, j: nat, i: nat)
    requires run.Valid() && j < i < |run.requests| && run.Reply(j).ReceiptIssued? && Honest(run, j, i)
    requires run.requests[j].Identity? && Examine(run.env, run.At(j), run.requests[j].identity).Ok?
    requires OpensOwn(run, j, i)
    ensures Succeeded(run, i) <==> Answerable(run.requests[i].prove)
    ensures Succeeded(run, i) ==>
              var q, t := run.requests[i].prove, run.Reply(i).minted.payload;
              && CarriesCommitted(q, t.Get("value"), CommittedAt(run, j), run.At(i).today)
              && t.Get("claim") == Str(RemovePrefix(AttrKey(q)))
  {
    HonestSucceeds(run, j, i);
    OwnDerives(run, j, i);
    if Succeeded(run, i) {
      OwnValue(run, j, i);
      VoucherCoversDisclosure(run, i);
    }
  }

  lemma OwnSaltHasSixteenBytes(run: Run, j: nat, field: string, value: string, salt: string)
    requires run.Valid() && j < |run.requests| && run.Reply(j).ReceiptIssued?
    requires run.requests[j].Identity? && Examine(run.env, run.At(j), run.requests[j].identity).Ok?
    requires Own(run, j, field, value, salt)
    ensures Decode(salt).Some? && |Decode(salt).value| == 16
  {
    SaltsOfReceipt(run, j);
    DecodeUndoesEncode(run.requests[j].salt(field));
  }

  lemma OwnValue(run: Run, j: nat, i: nat)
    requires run.Valid() && j < i < |run.requests| && run.Reply(j).ReceiptIssued? && Honest(run, j, i)
    requires Succeeded(run, i)
    requires run.requests[j].Identity? && Examine(run.env, run.At(j), run.requests[j].identity).Ok?
    requires OpensOwn(run, j, i)
    ensures CarriesCommitted(run.requests[i].prove, run.Reply(i).minted.payload.Get("value"), CommittedAt(run, j),
                             run.At(i).today)
  {
    var q := run.requests[i].prove;
    match q.path {
      case FieldPath => OwnSaltHasSixteenBytes(run, j, q.field, q.value, q.salt);
      case AgeOverPath => OwnSaltHasSixteenBytes(run, j, "birthdate", q.birthdate, q.salt);
      case AgeBandPath => OwnSaltHasSixteenBytes(run, j, "birthdate", q.birthdate, q.salt);
      case DocumentValidPath =>
      case PresencePath => OwnSaltHasSixteenBytes(run, j, PORTRAIT_FIELD, q.dg2, q.salt);
    }
    ValueOfReceipt(run, j, i);
  }

  lemma ValueOfReceipt(run: Run, j: nat, i: nat)
    requires run.Valid() && j < i < |run.requests| && run.Reply(j).ReceiptIssued? && Honest(run, j, i)
    requires Succeeded(run, i)
    requires run.requests[j].Identity? && Examine(run.env, run.At(j), run.requests[j].identity).Ok?
    requires SixteenByteSalt(run.requests[i].prove)
    ensures CarriesCommitted(run.requests[i].prove, run.Reply(i).minted.payload.Get("value"), CommittedAt(run, j),
                             run.At(i).today)
  {
    var q, s, ivr := run.requests[i].prove, run.At(i), run.Reply(j).minted.payload;
    var ivr', holder, sig, voucher := DisclosureGuards(run, i);
    TokenOfReceipt(run.env, s, q, ivr, holder, sig, voucher, run.Reply(i).minted.payload);
    var _ := ReceiptBehind(run, j);
    DerivedValueIsCommitted(run.env, s, q, ivr, CommittedAt(run, j), run.requests[j].salt);
  }

  // Proving a committed text field in particular: the disclosure succeeds, with exactly that
  // value, unless the value is empty.
  lemma HonestFieldDisclosure(run: Run, j: nat, i: nat)
    requires run.Valid() && j < i < |run.requests| && run.Reply(j).ReceiptIssued? && Honest(run, j, i)
    requires run.requests[j].Identity? && Examine(run.env, run.At(j), run.requests[j].identity).Ok?
    requires run.requests[i].prove.path == FieldPath && OpensOwn(run, j, i)
    ensures Succeeded(run, i) <==> run.requests[i].prove.value != ""
    ensures Succeeded(run, i) ==> run.Reply(i).minted.payload.Get("value") == Str(run.requests[i].prove.value)
    ensures Succeeded(run, i) ==> run.Reply(i).minted.payload.Get("claim") == Str(run.requests[i].prove.field)
  {
    HonestDisclosure(run, j, i);
    FieldClaim(run.requests[i].prove);
  }

  lemma FieldClaim(q: ProveRequest)
    requires q.path == FieldPath
    ensures RemovePrefix(AttrKey(q)) == q.field
  {
    assert AttrKey(q)[|PREFIX|..] == q.field;
  }

  // ---- When an established ceremony is answered with a token ----

  // A presence request whose capture makes the matcher raise.
  predicate UnmatchableCapture(q: ProveRequest) {
    q.path.PresencePath? && q.dg2 != "" && q.salt != "" && Decode(q.dg2).Some? && q.capture.Unmatchable?
  }

  // Opening a commitment the verifier made fails only as a ValueError or a charged failure.
  lemma OpenRaises(c: Primitives, ivr: Json, values: Fields, salt: string -> Salt, field: string, given: string,
                   saltB64: string)
    requires c.Sound() && Commits(c, ivr, values, salt)
    ensures Open(c, ivr, field, given, saltB64) in {None, Some(Fails(false)), Some(Raises(ValueFault))}
  {
    if field in values {
      DecodeUndoesEncode(c.sha256(c.utf8(values[field]) + salt(field)));
    }
  }

  lemma DeriveRaises(env: Env, s: State, q: ProveRequest, ivr: Json, values: Fields, salt: string -> Salt)
    requires env.c.Sound() && Commits(env.c, ivr, values, salt)
    ensures var d := Derive(env, s, q, ivr); d.Raises? && d.fault != ValueFault <==> UnmatchableCapture(q)
  {
    match q.path
    case FieldPath => OpenRaises(env.c, ivr, values, salt, q.field, q.value, q.salt);
    case AgeOverPath => OpenRaises(env.c, ivr, values, salt, "birthdate", q.birthdate, q.salt);
    case AgeBandPath => OpenRaises(env.c, ivr, values, salt, "birthdate", q.birthdate, q.salt);
    case DocumentValidPath =>
    case PresencePath => OpenRaises(env.c, ivr, values, salt, PORTRAIT_FIELD, q.dg2, q.salt);
  }

  lemma HolderFaults(c: Primitives, ivr: Json, holder: bytes, rpId: string, nonce: string, ts: int, sig: bytes,
                     now: int)
    requires IvrShaped(ivr)
    ensures var r := CheckHolder(c, ivr, holder, rpId, nonce, ts, sig, now); r.Ok? || r.fault == ValueFault
  {}

  lemma PayloadOf(c: Primitives, ivr: Json, x: TokenContext, claim: string, value: Json, extra: map<string, Json>,
                  failure: Option<bool>)
    requires IvrShaped(ivr)
    ensures var r := TokenPayload(c, ivr, x, claim, value, extra, failure);
            (r.Ok? <==> c.point(x.holderPub).Some?) && (r.Err? ==> r.fault == ValueFault)
  {}

  lemma CeremonyMints(env: Env, s: State, q: ProveRequest, ivr: Json, holder: bytes, sig: bytes, voucher: string,
                      values: Fields, salt: string -> Salt)
    requires q.ts.Some? && env.c.Sound() && IvrShaped(ivr) && Commits(env.c, ivr, values, salt)
    ensures Ceremony(env, s, q, ivr, holder, sig, voucher).Ok? <==>
            && env.c.point(holder).Some?
            && !(UnmatchableCapture(q) && CheckHolder(env.c, ivr, holder, q.rpId, q.nonce, q.ts.value, sig, s.now).Ok?)
  {
    var x, claim := Context(env, s, q, holder, voucher), RemovePrefix(AttrKey(q));
    HolderFaults(env.c, ivr, holder, q.rpId, q.nonce, q.ts.value, sig, s.now);
    DeriveRaises(env, s, q, ivr, values, salt);
    var d := Derive(env, s, q, ivr);
    if d.Discloses? {
      PayloadOf(env.c, ivr, x, d.claim, d.value, d.extra, None);
    }
    PayloadOf(env.c, ivr, x, claim, Bool(false), map[], Some(false));
    PayloadOf(env.c, ivr, x, claim, Bool(false), map[], Some(true));
    HolderNeedsPoint(env.c, ivr, holder, q.rpId, q.nonce, q.ts.value, sig, s.now);
  }

  lemma HolderNeedsPoint(c: Primitives, ivr: Json, holder: bytes, rpId: string, nonce: string, ts: int, sig: bytes,
                         now: int)
    ensures CheckHolder(c, ivr, holder, rpId, nonce, ts, sig, now).Ok? ==> c.point(holder).Some?
  {}

  // Everything before the ceremony has passed: it is established, and charged.
  ghost predicate Established(env: Env, s: State, q: ProveRequest) {
    && s.configured && q.ivr != "" && VerifyIvr(env.c, s.log, q.ivr, s.now).Ok? && q.sub != "" && q.rpId != ""
    && B64Field(q.holderPub).Ok? && B64Field(q.holderSig).Ok? && q.nonce != "" && q.ts.Some?
    && Wia.Enforce(env.c, env.cfg.requireWia, q.wia, Wia.Keys(s.jwks), B64Field(q.holderPub).value, s.now).Ok?
    && VoucherGate(env, q).Ok?
  }

  lemma EstablishedOutcome(env: Env, s: State, q: ProveRequest)
    requires s.configured
    ensures ProveOutcome(env, s, q).Ok? <==>
            && Established(env, s, q)
            && Ceremony(env, s, q, VerifyIvr(env.c, s.log, q.ivr, s.now).value, B64Field(q.holderPub).value,
                        B64Field(q.holderSig).value, VoucherGate(env, q).value).Ok?
  {}

  // In every run a request is answered with a token, of success or of failure, exactly when
  // its ceremony is established, its holder key is a point of the curve, and it is not a
  // presence request of the holder whose capture makes the matcher raise.
  lemma EstablishedIsAnswered(run: Run, i: nat)
    requires run.Valid() && i < |run.requests| && run.requests[i].Prove?
    ensures var q, s, c := run.requests[i].prove, run.At(i), run.env.c;
            run.Reply(i).Disclosed? <==>
            && Established(run.env, s, q) && c.point(B64Field(q.holderPub).value).Some?
            && !(UnmatchableCapture(q)
                 && CheckHolder(c, VerifyIvr(c, s.log, q.ivr, s.now).value, B64Field(q.holderPub).value, q.rpId,
                                q.nonce, q.ts.value,
                                B64Field(q.holderSig).value, s.now).Ok?)
  {
    var q, s, env := run.requests[i].prove, run.At(i), run.env;
    ProveReplies(run, i);
    if Established(env, s, q) {
      var j := AcceptedReceiptWasIssued(run, i, q.ivr);
      IssuedPasses(run, j);
      var _ := ReceiptBehind(run, j);
      CeremonyMints(env, s, q, run.Reply(j).minted.payload, B64Field(q.holderPub).value, B64Field(q.holderSig).value,
                    VoucherGate(env, q).value, CommittedAt(run, j), run.requests[j].salt);
    }
    if s.configured {
      EstablishedOutcome(env, s, q);
    }
  }

  lemma ProveReplies(run: Run, i: nat)
    requires run.Steps() && i < |run.requests| && run.requests[i].Prove?
    ensures run.Reply(i).Disclosed? <==>
            run.At(i).configured && ProveOutcome(run.env, run.At(i), run.requests[i].prove).Ok?
  {
    assert run.Follows(i);
    if run.At(i).configured && ProveOutcome(run.env, run.At(i), run.requests[i].prove).Ok? {
      DisclosureShape(run.env, run.At(i), run.requests[i].prove);
    }
  }
}

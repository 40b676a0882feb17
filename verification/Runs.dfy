// Whole runs of the verifier against an arbitrary client: where every accepted payload,
// every installed anchor and every disclosure comes from.
module Runs {
  import opened Prelude
  import opened Base64Url
  import opened Jose
  import opened Verification
  import opened Receipt
  import opened Server

  // A run: any requests, in any order, with any contents; the state before each of them
  // and after the last, and the reply to each.
  datatype Run = Run(env: Env, states: seq<State>, requests: seq<Request>, replies: seq<Response>) {
    // Request n took the process from one state to the next, with this reply.
    ghost predicate Follows(n: nat)
      requires n < |requests| && |states| == |requests| + 1 && |replies| == |requests|
    {
      (states[n + 1], replies[n]) == Step(env, states[n], requests[n])
    }

    ghost predicate Steps() {
      && |states| == |requests| + 1 && |replies| == |requests|
      && forall n :: 0 <= n < |requests| ==> Follows(n)
    }

    // The process was started on an empty volume, with a fresh key.
    ghost predicate Valid() {
      && env.c.Sound() && Steps()
      && !states[0].configured && states[0].anchors == [] && states[0].jwks == None && states[0].published == map[]
         && states[0].log == {}
    }

    // The state before request n.
    ghost function At(n: nat): State
      requires n < |states|
    {
      states[n]
    }

    ghost function Reply(n: nat): Response
      requires n < |replies|
    {
      replies[n]
    }
  }

  predicate Mints(r: Response) {
    r.ChallengeIssued? || r.ReceiptIssued? || r.Disclosed?
  }

  // ---- What one request may change ----

  lemma InstallsKeepLog(env: Env, s: State, ml: Option<bytes>, jwks: Option<Json>, pushed: bool)
    ensures InstallAnchors(env, s, ml, pushed).0.log == s.log
    ensures InstallJwks(env, s, jwks, pushed).0.log == s.log
  {}

  lemma ThenJwksKeepsLog(env: Env, s: State, r: Result<()>, wp: Option<Json>, m: Manager)
    ensures ThenJwks(env, s, r, wp, m).0.log == s.log && !Mints(ThenJwks(env, s, r, wp, m).1)
  {
    InstallsKeepLog(env, s, None, wp, m.jwksOid);
  }

  lemma ConfigureKeepsLog(env: Env, s: State, binary: bool, ml: Option<bytes>, jwks: Option<Json>, m: Manager)
    ensures ConfigureStep(env, s, binary, ml, jwks, m).0.log == s.log
    ensures !Mints(ConfigureStep(env, s, binary, ml, jwks, m).1)
  {
    InstallsKeepLog(env, s, ml, None, m.anchorOid);
    var (installed, result) := InstallAnchors(env, s, ml, m.anchorOid);
    ThenJwksKeepsLog(env, installed, result, if binary || jwks == Some(Null) then None else jwks, m);
  }

  // Only minting adds to the log, and it adds exactly what the reply carries.
  lemma StepLog(env: Env, s: State, q: Request)
    ensures var (after, reply) := Step(env, s, q);
            after.log == s.log + if Mints(reply) then {reply.minted} else {}
  {
    if q.Configure? {
      ConfigureKeepsLog(env, s, q.binary, q.ml, q.jwks, q.manager);
    }
  }

  lemma LogGrows(run: Run, n: nat)
    requires run.Steps() && n < |run.requests|
    ensures run.At(n + 1).log == run.At(n).log + if Mints(run.Reply(n)) then {run.Reply(n).minted} else {}
  {
    assert run.Follows(n);
    StepLog(run.env, run.At(n), run.requests[n]);
  }

  // Every payload in the log was minted in the reply to an earlier request.
  lemma {:induction false} LogOrigin(run: Run, n: nat, m: Minted) returns (j: nat)
    requires run.Valid() && n <= |run.requests| && m in run.At(n).log
    ensures j < n && Mints(run.Reply(j)) && run.Reply(j).minted == m
  {
    assert n > 0;
    LogGrows(run, n - 1);
    if m in run.At(n - 1).log {
      j := LogOrigin(run, n - 1, m);
    } else {
      j := n - 1;
    }
  }

  // ---- Payload shapes: one key, three kinds of payload, no typ check ----

  // A payload without a passing doc member is no receipt.
  lemma ReceiptShape(c: Primitives, log: set<Minted>, token: string, now: int)
    requires VerifyIvr(c, log, token, now).Ok?
    ensures var p := VerifyIvr(c, log, token, now).value;
            && p.Get("doc") != Null && JwsVerify(c, log, token) == Ok(p)
            && GetDefault(p, "exp", Int(0)).Int? && now <= GetDefault(p, "exp", Int(0)).n
  {}

  lemma MembersShape(ivr: Json, x: TokenContext, key: Point, claim: string, value: Json, extra: map<string, Json>)
    requires IvrShaped(ivr)
    ensures var t := TokenMembers(ivr, x, key, claim, value, extra);
            && "doc" !in t && "n" !in t && "failure" !in t
            && t.Keys >= {"claim", "value", "aud", "evidence", "cnf"}
            && t["claim"] == Str(claim) && t["value"] == value && t["aud"] == Str(x.rpId)
            && t["evidence"] == Evidence(ivr, x.voucher, extra)
            && t["cnf"] == Obj(map["jwk" := JwkPublic(key)])
  {}

  lemma TokenShape(c: Primitives, ivr: Json, x: TokenContext, claim: string, value: Json, extra: map<string, Json>,
                   failure: Option<bool>)
    requires TokenPayload(c, ivr, x, claim, value, extra, failure).Ok?
    ensures var p := TokenPayload(c, ivr, x, claim, value, extra, failure).value;
            && p.Obj? && "doc" !in p.members && "n" !in p.members
            && p.Get("claim") == Str(claim) && p.Get("value") == value && p.Get("aud") == Str(x.rpId)
            && IvrShaped(ivr) && p.Get("evidence") == Evidence(ivr, x.voucher, extra)
            && (p.Get("failure") == Null <==> failure.None?)
  {
    MembersShape(ivr, x, c.point(x.holderPub).value, claim, value, extra);
  }

  // What a Disclosed reply rests on.
  lemma DisclosureShape(env: Env, s: State, q: ProveRequest)
    requires ProveOutcome(env, s, q).Ok?
    ensures ProveOutcome(env, s, q).value.Disclosed?
    ensures var p := ProveOutcome(env, s, q).value.minted.payload; p.Obj? && "doc" !in p.members && "n" !in p.members
  {
    var ivr := VerifyIvr(env.c, s.log, q.ivr, s.now).value;
    var holder := B64Field(q.holderPub).value;
    var sig := B64Field(q.holderSig).value;
    CeremonyShape(env, s, q, ivr, holder, sig, VoucherGate(env, q).value);
  }

  // A ceremony ends in a token of one of two kinds: the derivation's own, or a failure
  // receipt for the requested claim.
  ghost predicate OwnToken(env: Env, s: State, q: ProveRequest, ivr: Json, holder: bytes, sig: bytes, voucher: string,
                           p: Json)
    requires q.ts.Some?
  {
    && CheckHolder(env.c, ivr, holder, q.rpId, q.nonce, q.ts.value, sig, s.now).Ok?
    && Derive(env, s, q, ivr).Discloses?
    && var d := Derive(env, s, q, ivr);
       TokenPayload(env.c, ivr, Context(env, s, q, holder, voucher), d.claim, d.value, d.extra, None) == Ok(p)
  }

  ghost predicate FailureToken(env: Env, s: State, q: ProveRequest, ivr: Json, holder: bytes, voucher: string,
                               p: Json) {
    exists retryable ::
      TokenPayload(env.c, ivr, Context(env, s, q, holder, voucher), RemovePrefix(AttrKey(q)), Bool(false), map[],
                   Some(retryable)) == Ok(p)
  }

  lemma CeremonyKinds(env: Env, s: State, q: ProveRequest, ivr: Json, holder: bytes, sig: bytes, voucher: string)
    requires q.ts.Some? && Ceremony(env, s, q, ivr, holder, sig, voucher).Ok?
    ensures var p := Ceremony(env, s, q, ivr, holder, sig, voucher).value;
            OwnToken(env, s, q, ivr, holder, sig, voucher, p) || FailureToken(env, s, q, ivr, holder, voucher, p)
  {}

  lemma CeremonyShape(env: Env, s: State, q: ProveRequest, ivr: Json, holder: bytes, sig: bytes, voucher: string)
    requires q.ts.Some? && Ceremony(env, s, q, ivr, holder, sig, voucher).Ok?
    ensures var p := Ceremony(env, s, q, ivr, holder, sig, voucher).value;
            && p.Obj? && "doc" !in p.members && "n" !in p.members
            && IvrShaped(ivr)
            && (p.Get("failure") == Null ==> OwnToken(env, s, q, ivr, holder, sig, voucher, p))
            && (p.Get("failure") != Null ==> FailureToken(env, s, q, ivr, holder, voucher, p))
  {
    var p := Ceremony(env, s, q, ivr, holder, sig, voucher).value;
    var x := Context(env, s, q, holder, voucher);
    CeremonyKinds(env, s, q, ivr, holder, sig, voucher);
    if OwnToken(env, s, q, ivr, holder, sig, voucher, p) {
      var d := Derive(env, s, q, ivr);
      TokenShape(env.c, ivr, x, d.claim, d.value, d.extra, None);
    }
    if FailureToken(env, s, q, ivr, holder, voucher, p) {
      var claim := RemovePrefix(AttrKey(q));
      var retryable :| TokenPayload(env.c, ivr, x, claim, Bool(false), map[], Some(retryable)) == Ok(p);
      TokenShape(env.c, ivr, x, RemovePrefix(AttrKey(q)), Bool(false), map[], Some(retryable));
    }
  }

  lemma ReplyKind(run: Run, j: nat)
    requires run.Steps() && j < |run.requests|
    ensures var reply, q, s := run.Reply(j), run.requests[j], run.At(j);
            && (reply.ReceiptIssued? ==>
                q.Identity? && s.configured && IdentityOutcome(run.env, s, q.identity, q.salt, q.jti) == Ok(reply))
            && (reply.Disclosed? ==> q.Prove? && s.configured && ProveOutcome(run.env, s, q.prove) == Ok(reply))
            && (reply.ChallengeIssued? ==>
                q.Challenge? && s.configured && reply.minted == ChallengeMinted(run.env, s, q.nonce))
  {
    var q, s := run.requests[j], run.At(j);
    assert run.Follows(j);
    if q.Configure? {
      ConfigureKeepsLog(run.env, s, q.binary, q.ml, q.jwks, q.manager);
    }
    if q.Prove? && s.configured && ProveOutcome(run.env, s, q.prove).Ok? {
      DisclosureShape(run.env, s, q.prove);
    }
  }

  // Although one key signs receipts, challenges and disclosures and no check reads typ,
  // what verify_ivr accepts was issued by verify-identity and has not outlived its term,
  lemma AcceptedReceiptWasIssued(run: Run, n: nat, token: string) returns (j: nat)
    requires run.Valid() && n <= |run.requests|
    requires VerifyIvr(run.env.c, run.At(n).log, token, run.At(n).now).Ok?
    ensures j < n && run.Reply(j).ReceiptIssued?
    ensures VerifyIvr(run.env.c, run.At(n).log, token, run.At(n).now) == Ok(run.Reply(j).minted.payload)
    ensures run.At(n).now <= run.At(j).now + run.env.cfg.ivrTtl
  {
    ReceiptShape(run.env.c, run.At(n).log, token, run.At(n).now);
    var m := VerifiedWasSigned(run.env.c, run.At(n).log, token);
    j := LogOrigin(run, n, m);
    MintedKinds(run, j, m.payload);
    ReceiptTerm(run, j);
  }

  // A minted payload with a doc member is a receipt; one with an n member, a challenge.
  lemma MintedKinds(run: Run, j: nat, p: Json)
    requires run.Steps() && j < |run.requests| && Mints(run.Reply(j)) && run.Reply(j).minted.payload == p
    ensures p.Get("doc") != Null ==> run.Reply(j).ReceiptIssued?
    ensures p.Get("n") != Null ==> run.Reply(j).ChallengeIssued?
  {
    ReplyKind(run, j);
    if run.Reply(j).Disclosed? {
      DisclosureShape(run.env, run.At(j), run.requests[j].prove);
    }
  }

  // and what the Active Authentication token check accepts was issued as that challenge.
  lemma AcceptedChallengeWasIssued(run: Run, n: nat, blk: AaBlock) returns (j: nat)
    requires run.Valid() && n <= |run.requests|
    requires CheckChallengeToken(run.env, run.At(n), blk).Ok?
    ensures j < n && run.Reply(j).ChallengeIssued?
    ensures run.requests[j].Challenge? && blk.challenge == Encode(run.requests[j].nonce)
    ensures run.At(j).now + run.env.cfg.challengeTtl >= run.At(n).now
  {
    var m := VerifiedWasSigned(run.env.c, run.At(n).log, blk.token);
    j := LogOrigin(run, n, m);
    AcceptedToken(run.env, run.At(n), blk, m.payload);
    MintedKinds(run, j, m.payload);
    ReplyKind(run, j);
  }

  lemma AcceptedToken(env: Env, s: State, blk: AaBlock, p: Json)
    requires CheckChallengeToken(env, s, blk).Ok? && JwsVerify(env.c, s.log, blk.token) == Ok(p)
    ensures p.Get("n") == Str(blk.challenge)
    ensures p.Get("exp").Int? ==> p.Get("exp").n >= s.now
  {}

  // A receipt expires after its term.
  lemma ReceiptTerm(run: Run, j: nat)
    requires run.Steps() && j < |run.requests| && run.Reply(j).ReceiptIssued?
    ensures run.Reply(j).minted.payload.Get("exp") == Int(run.At(j).now + run.env.cfg.ivrTtl)
  {
    ReplyKind(run, j);
    OutcomeTerm(run.env, run.At(j), run.requests[j].identity, run.requests[j].salt, run.requests[j].jti, run.Reply(j));
  }

  lemma OutcomeTerm(env: Env, s: State, q: IdentityRequest, salt: string -> Salt, jti: bytes, reply: Response)
    requires IdentityOutcome(env, s, q, salt, jti) == Ok(reply)
    ensures reply.minted.payload.Get("exp") == Int(s.now + env.cfg.ivrTtl)
  {
    OutcomeIsReceipt(env, s, q, salt, jti, reply);
    IssuedTerm(env, s, q, Examine(env, s, q).value, q.bio.value, B64Field(q.holderPub).value, salt, jti);
  }

  lemma OutcomeIsReceipt(env: Env, s: State, q: IdentityRequest, salt: string -> Salt, jti: bytes, reply: Response)
    requires IdentityOutcome(env, s, q, salt, jti) == Ok(reply)
    ensures Examine(env, s, q).Ok? && q.bio.Some? && B64Field(q.holderPub).Ok? && reply.ReceiptIssued?
    ensures reply.minted ==
            IvrFor(env, s, q, Examine(env, s, q).value, q.bio.value, B64Field(q.holderPub).value, salt, jti)
  {}

  lemma IssuedTerm(env: Env, s: State, q: IdentityRequest, doc: DocResult, bio: BioResult, holder: bytes,
                   salt: string -> Salt, jti: bytes)
    ensures IvrFor(env, s, q, doc, bio, holder, salt, jti).payload.Get("exp") == Int(s.now + env.cfg.ivrTtl)
  {
    IvrMembers(env.c, env.cfg.measurement, env.cfg.ivrTtl, doc, bio, holder,
               Commitments(env.c, Committed(doc.fields, Portrait(q.doc.groups)), salt), jti, s.now);
  }
}

// What stands behind every disclosure of a run.
module Provenance {
  import opened Prelude
  import opened Text
  import opened Dates
  import opened BerTlv
  import opened Base64Url
  import opened Jose
  import MasterList
  import PassiveAuth
  import Wia
  import opened Td3
  import opened Verification
  import opened Receipt
  import opened Server
  import opened Runs

  // ---- The anchors in force ----

  // The list was accepted and yields these anchors, under a signer that chains to the
  // pinned root.
  ghost predicate AcceptedList(env: Env, ml: Option<bytes>, anchors: seq<bytes>) {
    && ml.Some? && ExtractAnchors(env, ml.value) == Ok(anchors)
    && MasterList.Vouched(env.lib, env.c.sha256, env.cfg.pin, ml.value, anchors)
  }

  // Request k presented an accepted list and left its anchors in force.
  ghost predicate Installed(run: Run, k: nat, anchors: seq<bytes>)
    requires run.Steps() && k < |run.requests|
  {
    && run.requests[k].Configure? && AcceptedList(run.env, run.requests[k].ml, anchors)
    && run.At(k + 1).anchors == anchors
  }

  lemma InstallKeepsOrVouches(env: Env, s: State, ml: Option<bytes>, pushed: bool)
    ensures var after := InstallAnchors(env, s, ml, pushed).0;
            && after.configured == s.configured && after.log == s.log
            && (after.anchors == s.anchors || AcceptedList(env, ml, after.anchors))
  {
    if ml.Some? && ExtractAnchors(env, ml.value).Ok? {
      MasterList.ExtractedAreVouched(env.lib, env.c.sha256, env.cfg.pin, env.cfg.depth, ml.value);
    }
  }

  lemma InstallJwksKeeps(env: Env, s: State, jwks: Option<Json>, pushed: bool)
    ensures var after := InstallJwks(env, s, jwks, pushed).0;
            after.configured == s.configured && after.anchors == s.anchors && after.managerUp == s.managerUp
  {}

  lemma ThenJwksKeeps(env: Env, s: State, r: Result<()>, wp: Option<Json>, m: Manager)
    ensures var (after, reply) := ThenJwks(env, s, r, wp, m);
            && after.anchors == s.anchors && (after.configured ==> s.configured || s.anchors != [])
            && (reply.Configured? ==> after.configured)
  {
    InstallJwksKeeps(env, s, wp, m.jwksOid);
  }

  lemma ConfigureAnchors(env: Env, s: State, binary: bool, ml: Option<bytes>, jwks: Option<Json>, m: Manager)
    ensures var (after, reply) := ConfigureStep(env, s, binary, ml, jwks, m);
            && (after.anchors == s.anchors || AcceptedList(env, ml, after.anchors))
            && (after.configured ==> s.configured || after.anchors != [])
            && (reply.Configured? ==> after.configured)
  {
    InstallKeepsOrVouches(env, s, ml, m.anchorOid);
    var (installed, result) := InstallAnchors(env, s, ml, m.anchorOid);
    ThenJwksKeeps(env, installed, result, if binary || jwks == Some(Null) then None else jwks, m);
  }

  lemma StepAnchors(run: Run, n: nat)
    requires run.Steps() && n < |run.requests|
    ensures run.At(n + 1).anchors == run.At(n).anchors || Installed(run, n, run.At(n + 1).anchors)
    ensures run.At(n + 1).configured ==> run.At(n).configured || run.At(n + 1).anchors != []
  {
    var q := run.requests[n];
    assert run.Follows(n);
    if q.Configure? {
      ConfigureAnchors(run.env, run.At(n), q.binary, q.ml, q.jwks, q.manager);
    }
  }

  lemma InstalledNotEmpty(run: Run, k: nat, anchors: seq<bytes>)
    requires run.Steps() && k < |run.requests| && Installed(run, k, anchors)
    ensures anchors != []
  {}

  // The invariant of the process: unfrozen implies anchors, and anchors come from request k.
  ghost predicate Grounded(run: Run, s: State, k: nat, n: nat)
    requires run.Steps() && n <= |run.requests|
  {
    && (s.configured ==> s.anchors != [])
    && (s.anchors != [] ==> k < n && Installed(run, k, s.anchors))
  }

  lemma GroundedStep(run: Run, n: nat, before: State, after: State, k: nat) returns (k': nat)
    requires run.Steps() && n < |run.requests| && Grounded(run, before, k, n)
    requires after.anchors == before.anchors || Installed(run, n, after.anchors)
    requires after.configured ==> before.configured || after.anchors != []
    ensures Grounded(run, after, k', n + 1)
  {
    if after.anchors == before.anchors {
      k' := k;
    } else {
      InstalledNotEmpty(run, n, after.anchors);
      k' := n;
    }
  }

  // Unfrozen implies persisted anchors, and persisted anchors always came from an accepted
  // master list, whichever requests succeeded, half failed or restarted the process.
  lemma {:induction false} AnchorsComeFromAcceptedList(run: Run, n: nat) returns (k: nat)
    requires run.Valid() && n <= |run.requests|
    ensures Grounded(run, run.At(n), k, n)
  {
    k := 0;
    if n > 0 {
      k := AnchorsComeFromAcceptedList(run, n - 1);
      StepAnchors(run, n - 1);
      k := GroundedStep(run, n - 1, run.At(n - 1), run.At(n), k);
    }
  }

  // The freeze lifts only with an accepted configure call, on persisted anchors, or with a
  // restart on persisted anchors; and a frozen process mints nothing.
  lemma FreezeLifts(run: Run, n: nat)
    requires run.Steps() && n < |run.requests|
    ensures !run.At(n).configured && run.At(n + 1).configured ==>
              (run.Reply(n).Configured? && run.requests[n].Configure? && run.At(n + 1).anchors != [])
              || (run.requests[n].Restart? && run.At(n).anchors != [])
    ensures !run.At(n).configured ==> !Mints(run.Reply(n))
  {
    var q := run.requests[n];
    assert run.Follows(n);
    ReplyKind(run, n);
    if q.Configure? {
      ConfigureUnfreezes(run.env, run.At(n), q.binary, q.ml, q.jwks, q.manager);
    }
  }

  lemma AfterAnchors(env: Env, s: State, r: Result<()>, wp: Option<Json>, m: Manager)
    ensures var (after, reply) := ThenJwks(env, s, r, wp, m);
            && (reply.Configured? ==>
                r.Ok? && after.configured && after.anchors == s.anchors != [] && (s.managerUp ==> m.complete))
            && (reply.Configured? && wp.Some? ==> JwksInForce(env, after, wp.value) && (s.managerUp ==> m.jwksOid))
            && (!reply.Configured? ==> after.configured == s.configured)
  {
    InstallJwksKeeps(env, s, wp, m.jwksOid);
  }

  // The presented JWKS parsed, passed validation and is the persisted one.
  ghost predicate JwksInForce(env: Env, s: State, presented: Json) {
    && s.jwks.Some? && Wia.Validate(env.c, s.jwks.value).Ok?
    && (if presented.Obj? then s.jwks.value == presented
        else presented.Str? && env.c.loads(env.c.utf8(presented.s)) == s.jwks)
  }

  // The JWKS a configure call presents: none in a binary upload, and none when it is null.
  function PresentedJwks(binary: bool, jwks: Option<Json>): Option<Json> {
    if binary || jwks == Some(Null) then None else jwks
  }

  lemma InstalledAnchors(env: Env, s: State, ml: Option<bytes>, pushed: bool)
    ensures var (after, r) := InstallAnchors(env, s, ml, pushed);
            && after.configured == s.configured && after.managerUp == s.managerUp
            && (r.Ok? && ml.Some? ==> ExtractAnchors(env, ml.value) == Ok(after.anchors) && (s.managerUp ==> pushed))
  {}

  // A configure call that answers 200 has passed every gate; any other leaves the freeze as
  // it was.
  lemma ConfigureUnfreezes(env: Env, s: State, binary: bool, ml: Option<bytes>, jwks: Option<Json>, m: Manager)
    ensures var (after, reply) := ConfigureStep(env, s, binary, ml, jwks, m);
            && (reply.Configured? ==> after.configured && after.anchors != [] && (s.managerUp ==> m.complete))
            && (reply.Configured? && ml.Some? ==>
                  ExtractAnchors(env, ml.value) == Ok(after.anchors) && (s.managerUp ==> m.anchorOid))
            && (reply.Configured? && PresentedJwks(binary, jwks).Some? ==>
                  JwksInForce(env, after, PresentedJwks(binary, jwks).value) && (s.managerUp ==> m.jwksOid))
            && (!reply.Configured? ==> after.configured == s.configured)
  {
    var (installed, result) := InstallAnchors(env, s, ml, m.anchorOid);
    InstalledAnchors(env, s, ml, m.anchorOid);
    AfterAnchors(env, installed, result, PresentedJwks(binary, jwks), m);
  }

  // ---- The value of a disclosure ----

  // A derivation never invents evidence beyond its own, and names the claim the voucher
  // gate was asked for.
  lemma DerivationClaim(env: Env, s: State, q: ProveRequest, ivr: Json)
    requires Derive(env, s, q, ivr).Discloses?
    ensures Derive(env, s, q, ivr).claim == RemovePrefix(AttrKey(q))
    ensures Derive(env, s, q, ivr).extra.Keys <= {"presence"}
  {
    assert AttrKey(q)[|PREFIX|..] == Derive(env, s, q, ivr).claim;
  }

  ghost predicate SixteenByteSalt(q: ProveRequest) {
    q.path.DocumentValidPath? || (Decode(q.salt).Some? && |Decode(q.salt).value| == 16)
  }

  // The value is the committed one, or the stated function of it.
  ghost predicate CarriesCommitted(q: ProveRequest, value: Json, values: Fields, today: Date) {
    match q.path
    case FieldPath => q.field in values && value == Str(values[q.field])
    case AgeOverPath =>
      && "birthdate" in values && ParseDate(values["birthdate"]).Some? && q.threshold.Some?
      && value == Bool(Age(ParseDate(values["birthdate"]).value, today) >= q.threshold.value)
    case AgeBandPath =>
      && "birthdate" in values && ParseDate(values["birthdate"]).Some?
      && value == Str(BandOf(Age(ParseDate(values["birthdate"]).value, today), Bounds(q.bands)).Label())
    case DocumentValidPath => value == Bool(true)
    case PresencePath =>
      && PORTRAIT_FIELD in values && q.dg2 == values[PORTRAIT_FIELD]
      && q.capture.Matched? && q.capture.bio.faceMatch && value == Bool(true)
  }

  // The field a request opens, and the text it gives for it.
  function Opened(q: ProveRequest): Option<(string, string)> {
    match q.path
    case FieldPath => Some((q.field, q.value))
    case AgeOverPath => Some(("birthdate", q.birthdate))
    case AgeBandPath => Some(("birthdate", q.birthdate))
    case DocumentValidPath => None
    case PresencePath => Some((PORTRAIT_FIELD, q.dg2))
  }

  // The given text and salt make up the committed concatenation.
  ghost predicate OpensText(c: Primitives, q: ProveRequest, values: Fields, salt: string -> Salt) {
    match Opened(q)
    case None => true
    case Some((field, given)) =>
      && field in values && Decode(q.salt).Some?
      && c.utf8(given) + Decode(q.salt).value == c.utf8(values[field]) + salt(field)
  }

  // The value is the given text, or the stated function of it.
  ghost predicate SaysOpened(q: ProveRequest, value: Json, today: Date) {
    match q.path
    case FieldPath => value == Str(q.value) && q.value != ""
    case AgeOverPath =>
      && ParseDate(q.birthdate).Some? && q.threshold.Some?
      && value == Bool(Age(ParseDate(q.birthdate).value, today) >= q.threshold.value)
    case AgeBandPath =>
      && ParseDate(q.birthdate).Some?
      && value == Str(BandOf(Age(ParseDate(q.birthdate).value, today), Bounds(q.bands)).Label())
    case DocumentValidPath => value == Bool(true)
    case PresencePath => q.capture.Matched? && q.capture.bio.faceMatch && value == Bool(true)
  }

  // What holds of every disclosed value, whatever salt it was opened with: it says what was
  // given, which makes up the committed concatenation; with sixteen bytes of salt it is the
  // committed value or the stated function of it, and for a field and the portrait with no
  // other number.
  ghost predicate CarriesOpening(c: Primitives, q: ProveRequest, value: Json, values: Fields, salt: string -> Salt,
                                 today: Date)
  {
    && SaysOpened(q, value, today) && OpensText(c, q, values, salt)
    && (SixteenByteSalt(q) ==> CarriesCommitted(q, value, values, today))
    && (q.path.FieldPath? || q.path.PresencePath? ==>
          (CarriesCommitted(q, value, values, today) <==> SixteenByteSalt(q)))
  }

  lemma DerivedValueIsOpened(env: Env, s: State, q: ProveRequest, ivr: Json, values: Fields, salt: string -> Salt)
    requires env.c.Sound() && Commits(env.c, ivr, values, salt) && Derive(env, s, q, ivr).Discloses?
    ensures SaysOpened(q, Derive(env, s, q, ivr).value, s.today) && OpensText(env.c, q, values, salt)
  {
    match q.path
    case AgeOverPath => OpenMeansConcatenation(env.c, ivr, values, salt, "birthdate", q.birthdate, q.salt);
    case AgeBandPath => OpenMeansConcatenation(env.c, ivr, values, salt, "birthdate", q.birthdate, q.salt);
    case FieldPath => OpenMeansConcatenation(env.c, ivr, values, salt, q.field, q.value, q.salt);
    case PresencePath => OpenMeansConcatenation(env.c, ivr, values, salt, PORTRAIT_FIELD, q.dg2, q.salt);
    case DocumentValidPath =>
  }

  // The given text is the committed one exactly with sixteen bytes of salt.
  lemma OpenedIsCommitted(c: Primitives, q: ProveRequest, values: Fields, salt: string -> Salt)
    requires c.Sound() && OpensText(c, q, values, salt) && Opened(q).Some?
    ensures var (field, given) := Opened(q).value; given == values[field] <==> SixteenByteSalt(q)
  {
    var (field, given) := Opened(q).value;
    ConcatenationFixesValue(c, values[field], salt(field), given, Decode(q.salt).value);
  }

  lemma DerivedValueIsCommitted(env: Env, s: State, q: ProveRequest, ivr: Json, values: Fields, salt: string -> Salt)
    requires env.c.Sound() && Commits(env.c, ivr, values, salt)
    requires Derive(env, s, q, ivr).Discloses?
    ensures CarriesOpening(env.c, q, Derive(env, s, q, ivr).value, values, salt, s.today)
  {
    DerivedValueIsOpened(env, s, q, ivr, values, salt);
    if Opened(q).Some? {
      OpenedIsCommitted(env.c, q, values, salt);
    }
  }

  // ---- The receipt behind a disclosure ----

  lemma ReceiptMembers(env: Env, s: State, q: IdentityRequest, doc: DocResult, bio: BioResult, holder: bytes,
                       salt: string -> Salt, jti: bytes)
    ensures var p := IvrFor(env, s, q, doc, bio, holder, salt, jti).payload;
            && p.Get("jti") == Str(Encode(jti)) && p.Get("holder_binding") == Str(HolderBinding(env.c, holder))
            && Commits(env.c, p, Committed(doc.fields, Portrait(q.doc.groups)), salt)
  {
    DocMembers(doc);
    IvrMembers(env.c, env.cfg.measurement, env.cfg.ivrTtl, doc, bio, holder,
               Commitments(env.c, Committed(doc.fields, Portrait(q.doc.groups)), salt), jti, s.now);
  }

  // Request j is a verify-identity that examined a document, matched the face and bound
  // this holder key, under an attestation when one is required.
  ghost predicate VerifiedHolder(run: Run, j: nat, holder: bytes)
    requires run.Steps() && j < |run.requests|
  {
    && run.Reply(j).ReceiptIssued? && run.requests[j].Identity?
    && var q, s := run.requests[j].identity, run.At(j);
    && s.configured && B64Field(q.holderPub) == Ok(holder)
    && Examine(run.env, s, q).Ok? && Examine(run.env, s, q).value.passiveAuth
    && q.bio.Some? && q.bio.value.faceMatch
    && (run.env.cfg.requireWia ==> Wia.Attests(run.env.c, q.wia, Wia.Keys(s.jwks), holder, s.now))
  }

  // The values request j committed.
  ghost function CommittedAt(run: Run, j: nat): Fields
    requires run.Steps() && j < |run.requests| && run.requests[j].Identity?
    requires Examine(run.env, run.At(j), run.requests[j].identity).Ok?
  {
    var q := run.requests[j].identity;
    Committed(Examine(run.env, run.At(j), q).value.fields, Portrait(q.doc.groups))
  }

  // A ReceiptIssued reply carries the receipt of the document its request presented.
  lemma IssuedFrom(run: Run, j: nat) returns (doc: DocResult, bio: BioResult, holder: bytes)
    requires run.Steps() && j < |run.requests| && run.Reply(j).ReceiptIssued?
    ensures run.requests[j].Identity? && run.At(j).configured
    ensures var q, s := run.requests[j].identity, run.At(j);
            && Examine(run.env, s, q) == Ok(doc) && doc.passiveAuth && q.bio == Some(bio) && bio.faceMatch
            && B64Field(q.holderPub) == Ok(holder)
            && Wia.Enforce(run.env.c, run.env.cfg.requireWia, q.wia, Wia.Keys(s.jwks), holder, s.now).Ok?
            && run.Reply(j).minted == IvrFor(run.env, s, q, doc, bio, holder, run.requests[j].salt, run.requests[j].jti)
  {
    ReplyKind(run, j);
    var q, s := run.requests[j].identity, run.At(j);
    doc, bio, holder := Examine(run.env, s, q).value, q.bio.value, B64Field(q.holderPub).value;
    ExaminedPassed(run.env, s, q);
  }

  lemma ReceiptBehind(run: Run, j: nat) returns (holder: bytes)
    requires run.Steps() && j < |run.requests| && run.Reply(j).ReceiptIssued?
    ensures VerifiedHolder(run, j, holder)
    ensures var p := run.Reply(j).minted.payload;
            && p.Get("jti") == Str(Encode(run.requests[j].jti))
               && p.Get("holder_binding") == Str(HolderBinding(run.env.c, holder))
            && Commits(run.env.c, p, CommittedAt(run, j), run.requests[j].salt)
  {
    var doc, bio, key := IssuedFrom(run, j);
    holder := key;
    var s, q := run.At(j), run.requests[j].identity;
    if run.env.cfg.requireWia {
      Wia.RequiredMeansAttested(run.env.c, q.wia, Wia.Keys(s.jwks), holder, s.now);
    }
    ReceiptMembers(run.env, s, q, doc, bio, holder, run.requests[j].salt, run.requests[j].jti);
  }

  lemma ExaminedPassed(env: Env, s: State, q: IdentityRequest)
    requires Examine(env, s, q).Ok?
    ensures Examine(env, s, q).value.passiveAuth
  {
    ResultIsAuthentic(env.lib, s.anchors, q.doc, s.today, env.decode);
  }

  // The guards a disclosure passed, up to the ceremony.
  lemma DisclosureGuards(run: Run, i: nat) returns (ivr: Json, holder: bytes, sig: bytes, voucher: string)
    requires run.Steps() && i < |run.requests| && run.Reply(i).Disclosed?
    ensures run.requests[i].Prove? && run.At(i).configured && run.requests[i].prove.ts.Some?
    ensures var q, s, env := run.requests[i].prove, run.At(i), run.env;
            && VerifyIvr(env.c, s.log, q.ivr, s.now) == Ok(ivr)
            && B64Field(q.holderPub) == Ok(holder) && B64Field(q.holderSig) == Ok(sig)
            && Wia.Enforce(env.c, env.cfg.requireWia, q.wia, Wia.Keys(s.jwks), holder, s.now).Ok?
            && VoucherGate(env, q) == Ok(voucher)
            && Ceremony(env, s, q, ivr, holder, sig, voucher) == Ok(run.Reply(i).minted.payload)
            && run.Reply(i).voucherJti == (if voucher == "" then None else Some(voucher))
  {
    ReplyKind(run, i);
    var q, s, env := run.requests[i].prove, run.At(i), run.env;
    ivr := VerifyIvr(env.c, s.log, q.ivr, s.now).value;
    holder := B64Field(q.holderPub).value;
    sig := B64Field(q.holderSig).value;
    voucher := VoucherGate(env, q).value;
  }

  // A successful disclosure: one whose token carries no failure member.
  ghost predicate Succeeded(run: Run, i: nat)
    requires i < |run.replies|
  {
    run.Reply(i).Disclosed? && run.Reply(i).minted.payload.Get("failure") == Null
  }

  lemma EvidenceMembers(ivr: Json, voucher: string, extra: map<string, Json>)
    requires IvrShaped(ivr) && extra.Keys <= {"presence"}
    ensures Evidence(ivr, voucher, extra).Get("ivr") == ivr.Get("jti")
    ensures Evidence(ivr, voucher, extra).Get("voucher") == if voucher == "" then Null else Str(voucher)
  {}

  // Token i goes back to request j: the receipt it was derived from is the one j issued, to
  // the same holder key after Passive Authentication and a face match, and its evidence names
  // it; with attestation required, both requests presented one that binds this key under the
  // JWKS then in force; and the value carries what was opened of the commitments of j.
  ghost predicate TracesTo(run: Run, i: nat, j: nat, holder: bytes)
    requires run.Steps() && i < |run.requests| && j < |run.requests|
  {
    && run.requests[i].Prove? && run.Reply(i).Disclosed? && j < i && VerifiedHolder(run, j, holder)
    && var q, s, t, ivr := run.requests[i].prove, run.At(i), run.Reply(i).minted.payload, run.Reply(j).minted.payload;
    && B64Field(q.holderPub) == Ok(holder)
    && VerifyIvr(run.env.c, s.log, q.ivr, s.now) == Ok(ivr)
    && ivr.Get("jti") == Str(Encode(run.requests[j].jti))
       && t.Get("evidence").Get("ivr") == Str(Encode(run.requests[j].jti))
    && (run.env.cfg.requireWia ==> Wia.Attests(run.env.c, q.wia, Wia.Keys(s.jwks), holder, s.now))
    && CarriesOpening(run.env.c, q, t.Get("value"), CommittedAt(run, j), run.requests[j].salt, s.today)
  }

  // Every successful disclosure of every run goes back to an earlier verify-identity.
  lemma DisclosureProvenance(run: Run, i: nat) returns (j: nat, holder: bytes)
    requires run.Valid() && i < |run.requests| && Succeeded(run, i)
    ensures j < |run.requests| && TracesTo(run, i, j, holder)
  {
    var ivr, key, sig, voucher := DisclosureGuards(run, i);
    var q, s, env := run.requests[i].prove, run.At(i), run.env;
    j := AcceptedReceiptWasIssued(run, i, q.ivr);
    holder := ReceiptBehind(run, j);
    TokenOfReceipt(env, s, q, ivr, key, sig, voucher, run.Reply(i).minted.payload);
    SameHolder(env.c, ivr, key, holder, q, sig, s.now);
    DerivedValueIsCommitted(env, s, q, ivr, CommittedAt(run, j), run.requests[j].salt);
  }

  // The members of a successful token that come from its derivation and from the receipt.
  lemma TokenOfReceipt(env: Env, s: State, q: ProveRequest, ivr: Json, key: bytes, sig: bytes, voucher: string, t: Json)
    requires q.ts.Some? && Ceremony(env, s, q, ivr, key, sig, voucher) == Ok(t) && t.Get("failure") == Null
    requires Wia.Enforce(env.c, env.cfg.requireWia, q.wia, Wia.Keys(s.jwks), key, s.now).Ok?
    ensures CheckHolder(env.c, ivr, key, q.rpId, q.nonce, q.ts.value, sig, s.now).Ok?
    ensures Derive(env, s, q, ivr).Discloses? && t.Get("value") == Derive(env, s, q, ivr).value
    ensures t.Get("evidence").Get("ivr") == ivr.Get("jti")
    ensures env.cfg.requireWia ==> Wia.Attests(env.c, q.wia, Wia.Keys(s.jwks), key, s.now)
  {
    if env.cfg.requireWia {
      Wia.RequiredMeansAttested(env.c, q.wia, Wia.Keys(s.jwks), key, s.now);
    }
    CeremonyShape(env, s, q, ivr, key, sig, voucher);
    var d := Derive(env, s, q, ivr);
    DerivationClaim(env, s, q, ivr);
    TokenShape(env.c, ivr, Context(env, s, q, key, voucher), d.claim, d.value, d.extra, None);
    EvidenceMembers(ivr, voucher, d.extra);
  }

  // What request j certified was read from data groups an authentic EF.SOD covers, under the
  // anchors request k had installed earlier from an accepted master list.
  ghost predicate Rooted(run: Run, j: nat, k: nat)
    requires run.Steps() && j < |run.requests| && run.requests[j].Identity?
  {
    && k < j && Installed(run, k, run.At(j).anchors)
    && var q, s := run.requests[j].identity, run.At(j);
    && q.doc.sod.Some? && 1 in q.doc.groups
    && AuthenticGroups(run.env, q.doc, s.anchors)
    && Examine(run.env, s, q).Ok?
    && CertifiedFields(q.doc.groups, s.today.year, run.env.decode) == Ok(Examine(run.env, s, q).value.fields)
  }

  ghost predicate AuthenticGroups(env: Env, doc: Document, anchors: seq<bytes>)
    requires doc.sod.Some?
  {
    exists pa :: PassiveAuth.Authentic(env.lib, doc.sod.value, anchors, pa) && Untampered(env.lib, pa, doc.groups)
  }

  lemma ReceiptIsRooted(run: Run, j: nat, holder: bytes) returns (k: nat)
    requires run.Valid() && j < |run.requests| && VerifiedHolder(run, j, holder)
    ensures Rooted(run, j, k)
  {
    k := AnchorsComeFromAcceptedList(run, j);
    ExaminedIsAuthentic(run.env, run.At(j), run.requests[j].identity);
  }

  lemma ExaminedIsAuthentic(env: Env, s: State, q: IdentityRequest)
    requires Examine(env, s, q).Ok?
    ensures q.doc.sod.Some? && 1 in q.doc.groups && AuthenticGroups(env, q.doc, s.anchors)
    ensures CertifiedFields(q.doc.groups, s.today.year, env.decode) == Ok(Examine(env, s, q).value.fields)
  {
    ResultIsAuthentic(env.lib, s.anchors, q.doc, s.today, env.decode);
  }

  // Down to the roots: token i goes back to a receipt whose committed values were read from a
  // document that is authentic under anchors of an accepted master list.
  lemma DisclosureReachesPinnedRoot(run: Run, i: nat) returns (k: nat, j: nat, holder: bytes)
    requires run.Valid() && i < |run.requests| && Succeeded(run, i)
    ensures k < j < i && TracesTo(run, i, j, holder) && Rooted(run, j, k)
  {
    j, holder := DisclosureProvenance(run, i);
    k := ReceiptIsRooted(run, j, holder);
  }

  lemma SameHolder(c: Primitives, ivr: Json, key: bytes, holder: bytes, q: ProveRequest, sig: bytes, now: int)
    requires c.Sound() && q.ts.Some? && CheckHolder(c, ivr, key, q.rpId, q.nonce, q.ts.value, sig, now).Ok?
    requires ivr.Get("holder_binding") == Str(HolderBinding(c, holder))
    ensures key == holder
  {
    HolderBindingIsInjective(c, key, holder);
  }

  // Evidence that cites a document, the time its receipt was issued and the verifier's build.
  ghost predicate Cites(e: Json, doc: DocResult, at: int, measurement: string) {
    && e.Get("doc_type") == Str(doc.docType) && e.Get("issuing_state") == Str(doc.issuingState)
    && e.Get("verified_at") == Int(at) && e.Get("measurement") == Str(measurement)
  }

  // A token for the requested party and subject, minted now for a term, whose confirmation
  // key is the given point.
  ghost predicate IsFor(c: Primitives, t: Json, q: ProveRequest, now: int, ttl: nat, key: Point) {
    && t.Get("aud") == Str(q.rpId) && t.Get("sub") == Str(q.sub)
    && t.Get("iat") == Int(now) && t.Get("exp") == Int(now + ttl)
    && PublicFromJwk(c, t.Get("cnf").Get("jwk")) == Ok(key)
  }

  // Token t of request i: for this relying party and a short term, bound to the holder's key,
  // which signed exactly receipt j, this party, the nonce and the time; its evidence cites
  // the document and the time of the receipt.
  ghost predicate SpeaksFor(run: Run, i: nat, j: nat, holder: bytes)
    requires run.Steps() && i < |run.requests| && j < |run.requests| && VerifiedHolder(run, j, holder)
    requires run.requests[i].Prove? && run.Reply(i).Disclosed?
  {
    && run.env.c.point(holder).Some?
    && var q, t, s, key := run.requests[i].prove, run.Reply(i).minted.payload, run.At(i), run.env.c.point(holder).value;
    && IsFor(run.env.c, t, q, s.now, run.env.cfg.tokenTtl, key)
    && HolderSigned(run.env.c, q, Str(Encode(run.requests[j].jti)), key, s.now)
    && Cites(t.Get("evidence"), Examine(run.env, run.At(j), run.requests[j].identity).value, run.At(j).now,
             run.env.cfg.measurement)
  }

  lemma SpeaksFrom(run: Run, i: nat, j: nat, holder: bytes)
    requires run.Steps() && i < |run.requests| && j < |run.requests| && Succeeded(run, i) && TracesTo(run, i, j, holder)
    requires run.env.c.point(holder).Some? ==>
               var p := run.env.c.point(holder).value; PublicFromJwk(run.env.c, JwkPublic(p)) == Ok(p)
    ensures SpeaksFor(run, i, j, holder)
  {
    var t, ivr := run.Reply(i).minted.payload, run.Reply(j).minted.payload;
    ReceiptEvidence(run, j);
    var x := OwnTokenOf(run, i, ivr, holder);
    BoundIsFor(run.env.c, t, run.requests[i].prove, x, run.env.c.point(holder).value);
    CitedDocument(t.Get("evidence"), ivr, Examine(run.env, run.At(j), run.requests[j].identity).value, run.At(j).now,
                  run.env.cfg.measurement);
  }

  lemma BoundIsFor(c: Primitives, t: Json, q: ProveRequest, x: TokenContext, key: Point)
    requires Binds(t, x, key) && x.rpId == q.rpId && x.sub == q.sub && PublicFromJwk(c, JwkPublic(key)) == Ok(key)
    ensures IsFor(c, t, q, x.now, x.ttl, key)
  {}

  lemma CitedDocument(e: Json, ivr: Json, doc: DocResult, at: int, measurement: string)
    requires CitesReceipt(e, ivr) && States(ivr, doc, at, measurement)
    ensures Cites(e, doc, at, measurement)
  {}

  // What every successful token says of its origin, and whom it binds.
  lemma DisclosureSpeaksForHolder(run: Run, i: nat) returns (j: nat, holder: bytes)
    requires run.Valid() && i < |run.requests| && Succeeded(run, i)
    ensures j < i && TracesTo(run, i, j, holder) && SpeaksFor(run, i, j, holder)
  {
    j, holder := DisclosureProvenance(run, i);
    if run.env.c.point(holder).Some? {
      JwkDenotesPoint(run.env.c, holder, run.env.c.point(holder).value);
    }
    SpeaksFrom(run, i, j, holder);
  }

  lemma OwnTokenOf(run: Run, i: nat, ivr: Json, holder: bytes) returns (x: TokenContext)
    requires run.Steps() && i < |run.requests| && Succeeded(run, i) && run.requests[i].Prove?
    requires var q, s := run.requests[i].prove, run.At(i);
             VerifyIvr(run.env.c, s.log, q.ivr, s.now) == Ok(ivr) && B64Field(q.holderPub) == Ok(holder)
    requires ivr.Get("measurement") != Null
    ensures var q, s, t := run.requests[i].prove, run.At(i), run.Reply(i).minted.payload;
            && run.env.c.point(holder).Some? && Binds(t, x, run.env.c.point(holder).value)
            && x.rpId == q.rpId && x.sub == q.sub && x.now == s.now && x.ttl == run.env.cfg.tokenTtl
            && CitesReceipt(t.Get("evidence"), ivr)
            && HolderSigned(run.env.c, q, ivr.Get("jti"), run.env.c.point(holder).value, s.now)
  {
    var ivr', key, sig, voucher := DisclosureGuards(run, i);
    var q, s, env, t := run.requests[i].prove, run.At(i), run.env, run.Reply(i).minted.payload;
    x := Context(env, s, q, key, voucher);
    CeremonyShape(env, s, q, ivr, key, sig, voucher);
    OwnTokenBinding(env, s, q, ivr, key, sig, voucher, t);
  }

  // The signature in the request is the holder key's over the receipt's jti with this party,
  // nonce and timestamp, and the timestamp is within five minutes.
  ghost predicate HolderSigned(c: Primitives, q: ProveRequest, jti: Json, key: Point, now: int) {
    && q.ts.Some? && now - 300 <= q.ts.value <= now + 300
    && Decode(q.holderSig).Some? && |Decode(q.holderSig).value| == 64
    && var sig := Decode(q.holderSig).value;
       exists msg :: IsHolderText(c, msg, jti, q.rpId, q.nonce, q.ts.value)
                     && c.verify(key, msg, BigEndian(sig[..32]), BigEndian(sig[32..]))
  }

  lemma CheckedHolderSigned(c: Primitives, ivr: Json, holder: bytes, q: ProveRequest, sig: bytes, now: int)
    requires q.ts.Some? && CheckHolder(c, ivr, holder, q.rpId, q.nonce, q.ts.value, sig, now).Ok?
    requires B64Field(q.holderSig) == Ok(sig)
    ensures c.point(holder).Some? && HolderSigned(c, q, ivr.Get("jti"), c.point(holder).value, now)
  {
    CheckHolderExactly(c, ivr, holder, q.rpId, q.nonce, q.ts.value, sig, now);
  }

  // What a receipt states of its document, its time and the build.
  ghost predicate States(p: Json, doc: DocResult, at: int, measurement: string) {
    && p.Get("doc").Get("doc_type") == Str(doc.docType) && p.Get("doc").Get("issuing_state") == Str(doc.issuingState)
    && p.Get("iat") == Int(at) && p.Get("measurement") == Str(measurement)
  }

  lemma ReceiptEvidence(run: Run, j: nat)
    requires run.Steps() && j < |run.requests| && run.Reply(j).ReceiptIssued?
    ensures run.requests[j].Identity? && Examine(run.env, run.At(j), run.requests[j].identity).Ok?
    ensures States(run.Reply(j).minted.payload, Examine(run.env, run.At(j), run.requests[j].identity).value,
                   run.At(j).now, run.env.cfg.measurement)
  {
    var doc, bio, holder := IssuedFrom(run, j);
    EvidenceOfReceipt(run.env, run.At(j), run.requests[j].identity, doc, bio, holder, run.requests[j].salt,
                      run.requests[j].jti);
  }

  lemma EvidenceOfReceipt(env: Env, s: State, q: IdentityRequest, doc: DocResult, bio: BioResult, holder: bytes,
                          salt: string -> Salt, jti: bytes)
    ensures States(IvrFor(env, s, q, doc, bio, holder, salt, jti).payload, doc, s.now, env.cfg.measurement)
  {
    DocMembers(doc);
    IvrMembers(env.c, env.cfg.measurement, env.cfg.ivrTtl, doc, bio, holder,
               Commitments(env.c, Committed(doc.fields, Portrait(q.doc.groups)), salt), jti, s.now);
  }

  // The members of a token that name its term and its parties.
  ghost predicate Binds(t: Json, x: TokenContext, key: Point) {
    && t.Get("aud") == Str(x.rpId) && t.Get("sub") == Str(x.sub)
    && t.Get("iat") == Int(x.now) && t.Get("exp") == Int(x.now + x.ttl)
    && t.Get("cnf").Get("jwk") == JwkPublic(key)
  }

  // The members of the evidence taken from the receipt.
  ghost predicate CitesReceipt(e: Json, ivr: Json) {
    && e.Get("doc_type") == ivr.Get("doc").Get("doc_type")
       && e.Get("issuing_state") == ivr.Get("doc").Get("issuing_state")
    && e.Get("verified_at") == ivr.Get("iat") && e.Get("measurement") == ivr.Get("measurement")
  }

  lemma MembersBind(ivr: Json, x: TokenContext, key: Point, claim: string, value: Json, extra: map<string, Json>)
    requires IvrShaped(ivr)
    ensures var t := Obj(TokenMembers(ivr, x, key, claim, value, extra));
            Binds(t, x, key) && t.Get("evidence") == Evidence(ivr, x.voucher, extra)
  {}

  lemma TokenBinding(c: Primitives, ivr: Json, x: TokenContext, claim: string, value: Json, extra: map<string, Json>)
    requires TokenPayload(c, ivr, x, claim, value, extra, None).Ok? && extra.Keys <= {"presence"}
    requires ivr.Get("measurement") != Null
    ensures c.point(x.holderPub).Some?
    ensures var t := TokenPayload(c, ivr, x, claim, value, extra, None).value;
            Binds(t, x, c.point(x.holderPub).value) && CitesReceipt(t.Get("evidence"), ivr)
  {
    MembersBind(ivr, x, c.point(x.holderPub).value, claim, value, extra);
    MoreEvidence(ivr, x.voucher, extra);
  }

  lemma OwnTokenBinding(env: Env, s: State, q: ProveRequest, ivr: Json, key: bytes, sig: bytes, voucher: string,
                        t: Json)
    requires q.ts.Some? && OwnToken(env, s, q, ivr, key, sig, voucher, t) && B64Field(q.holderSig) == Ok(sig)
    requires ivr.Get("measurement") != Null
    ensures env.c.point(key).Some? && Binds(t, Context(env, s, q, key, voucher), env.c.point(key).value)
    ensures CitesReceipt(t.Get("evidence"), ivr)
    ensures HolderSigned(env.c, q, ivr.Get("jti"), env.c.point(key).value, s.now)
  {
    var d := Derive(env, s, q, ivr);
    DerivationClaim(env, s, q, ivr);
    CheckedHolderSigned(env.c, ivr, key, q, sig, s.now);
    TokenBinding(env.c, ivr, Context(env, s, q, key, voucher), d.claim, d.value, d.extra);
  }

  lemma MoreEvidence(ivr: Json, voucher: string, extra: map<string, Json>)
    requires IvrShaped(ivr) && extra.Keys <= {"presence"} && ivr.Get("measurement") != Null
    ensures CitesReceipt(Evidence(ivr, voucher, extra), ivr)
  {}

  // ---- Vouchers ----

  // The claim of every token, success or failure, is the key the voucher gate checked minus
  // its prefix. Under the voucher requirement a token for another relying party was paid
  // for, and a voucher that is present is always enforced: it authorised that key, and named
  // that party if it named one. The reply names the voucher exactly when the token's
  // evidence does.
  lemma VoucherCoversDisclosure(run: Run, i: nat)
    requires run.Valid() && i < |run.requests| && run.Reply(i).Disclosed?
    ensures run.requests[i].Prove?
    ensures var q, t := run.requests[i].prove, run.Reply(i).minted.payload;
            && t.Get("claim") == Str(RemovePrefix(AttrKey(q))) && AttrKey(q) == PREFIX + RemovePrefix(AttrKey(q))
            && t.Get("aud") == Str(q.rpId)
            && ((run.env.cfg.requireVoucher && q.rpId !in run.env.cfg.selfAudiences) || Authorised(q.headers) != [] ==>
                  && AttrKey(q) in Authorised(q.headers)
                  && (Strip(q.headers.rpId) != "" ==> Strip(q.headers.rpId) == q.rpId))
            && t.Get("evidence").Get("voucher") ==
               (match run.Reply(i).voucherJti case None => Null case Some(v) => Str(v))
            && (run.Reply(i).voucherJti.Some? ==>
                run.Reply(i).voucherJti.value != "" && AttrKey(q) in Authorised(q.headers))
  {
    var ivr, key, sig, voucher := DisclosureGuards(run, i);
    var q, s, env, t := run.requests[i].prove, run.At(i), run.env, run.Reply(i).minted.payload;
    var x := Context(env, s, q, key, voucher);
    CeremonyShape(env, s, q, ivr, key, sig, voucher);
    if t.Get("failure") == Null {
      var d := Derive(env, s, q, ivr);
      DerivationClaim(env, s, q, ivr);
      TokenShape(env.c, ivr, x, d.claim, d.value, d.extra, None);
      EvidenceMembers(ivr, voucher, d.extra);
    } else {
      var claim := RemovePrefix(AttrKey(q));
      var retryable :| TokenPayload(env.c, ivr, x, claim, Bool(false), map[], Some(retryable)) == Ok(t);
      TokenShape(env.c, ivr, x, RemovePrefix(AttrKey(q)), Bool(false), map[], Some(retryable));
      EvidenceMembers(ivr, voucher, map[]);
    }
  }
}

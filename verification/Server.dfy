// The verifier process: one atomic step per request, over the persisted anchors and JWKS,
// the freeze, the manager's attested digests, and everything the signing key has signed.
module Server {
  import opened Prelude
  import opened Text
  import opened Dates
  import opened Base64Url
  import opened Jose
  import Pki
  import MasterList
  import Wia
  import ActiveAuth
  import opened Td3
  import opened Verification
  import opened Receipt

  type Today = d: Date | IsDate(d) witness Date(2000, 1, 1)

  const TRUST_ANCHORS_OID := "1.3.6.1.4.1.65230.5.4.1"
  const WALLET_PROVIDER_JWKS_OID := "1.3.6.1.4.1.65230.5.4.2"

  datatype Config = Config(requireWia: bool, requireVoucher: bool, selfAudiences: set<string>, ivrTtl: nat,
                           tokenTtl: nat, challengeTtl: nat, measurement: string, issuer: string, pin: bytes,
                           depth: nat)

  // What the process runs on: primitives, libraries, configuration; loadable says whether a
  // PEM bundle parses.
  datatype Env = Env(c: Primitives, lib: Pki.Library, cfg: Config, decode: bytes -> string,
                     loadable: seq<bytes> -> bool, chip: ActiveAuth.ChipLibrary)

  // configured lifts the freeze; anchors and jwks are the sealed volume; published is the
  // manager's leaf state; log is every payload the signing key has signed.
  datatype State = State(configured: bool, managerUp: bool, anchors: seq<bytes>, jwks: Option<Json>,
                         published: map<string, bytes>, log: set<Minted>, now: int, today: Today)

  // Whether each call to the manager succeeds, should it be made.
  datatype Manager = Manager(anchorOid: bool, jwksOid: bool, complete: bool)

  // Missing strings are empty, as _require and the truth tests treat them.
  datatype AaBlock = AaBlock(challenge: string, token: string, signature: string)

  // bio is None when the biometric comparison raises.
  datatype IdentityRequest = IdentityRequest(holderPub: string, wia: string, doc: Document, aa: Option<AaBlock>,
                                             bio: Option<BioResult>)

  datatype Path = AgeOverPath | AgeBandPath | FieldPath | DocumentValidPath | PresencePath

  datatype Capture = NoSelfie | Unmatchable | Matched(bio: BioResult)

  datatype Headers = Headers(host: string, claims: string, jti: string, rpId: string)

  datatype ProveRequest = ProveRequest(path: Path, ivr: string, sub: string, rpId: string, holderPub: string,
                                       wia: string, nonce: string, ts: Option<int>, holderSig: string,
                                       birthdate: string, salt: string, threshold: Option<int>, bands: seq<int>,
                                       field: string, value: string, dg2: string, capture: Capture, headers: Headers)

  datatype Request =
    | Configure(binary: bool, ml: Option<bytes>, jwks: Option<Json>, manager: Manager)
    | Restart(managerUp: bool, manager: Manager)
    | Challenge(nonce: bytes)
    | Identity(identity: IdentityRequest, salt: string -> Salt, jti: bytes)
    | Prove(prove: ProveRequest)
    | Tick(now: int, today: Today)

  datatype Response =
    | Refused(status: nat)
    | Configured
    | ChallengeIssued(minted: Minted)
    | ReceiptIssued(minted: Minted, salts: map<string, string>, fields: Fields, viz: Option<bool>)
    | Disclosed(minted: Minted, voucherJti: Option<string>)
    | Done

  function Status(fault: Fault): nat {
    if fault == ValueFault || fault == VerificationFault then 400 else 500
  }

  // ---- Configuration ----

  function AnchorDigest(env: Env, anchors: seq<bytes>): bytes {
    env.c.sha256(env.lib.pem(anchors))
  }

  function JwksDigest(env: Env, jwks: Json): bytes {
    env.c.sha256(env.c.dumps(jwks))
  }

  // set_anchors: persist first, publish second.
  function SetAnchors(env: Env, s: State, anchors: seq<bytes>, pushed: bool): (State, Result<()>) {
    if !env.loadable(anchors) then (s, Err(ValueFault))
    else
      var stored := s.(anchors := anchors);
      if !s.managerUp then (stored, Ok(()))
      else if !pushed then (stored, Err(CrashFault))
      else (stored.(published := s.published[TRUST_ANCHORS_OID := AnchorDigest(env, anchors)]), Ok(()))
  }

  function SetJwks(env: Env, s: State, jwks: Json, pushed: bool): (State, Result<()>) {
    match Wia.Validate(env.c, jwks)
    case Err(fault) => (s, Err(fault))
    case Ok(_) =>
      var stored := s.(jwks := Some(jwks));
      if !s.managerUp then (stored, Ok(()))
      else if !pushed then (stored, Err(CrashFault))
      else (stored.(published := s.published[WALLET_PROVIDER_JWKS_OID := JwksDigest(env, jwks)]), Ok(()))
  }

  // wp_jwks as a dict, or as the JSON text of one.
  function JwksArgument(env: Env, jwks: Json): Result<Json> {
    if jwks.Obj? then Ok(jwks)
    else if !jwks.Str? then Err(CrashFault)
    else
      match env.c.loads(env.c.utf8(jwks.s))
      case None => Err(ValueFault)
      case Some(doc) => Ok(doc)
  }

  function ExtractAnchors(env: Env, ml: bytes): Result<seq<bytes>> {
    MasterList.VerifyAndExtract(env.lib, env.c.sha256, env.cfg.pin, env.cfg.depth, ml)
  }

  function InstallAnchors(env: Env, s: State, ml: Option<bytes>, pushed: bool): (State, Result<()>) {
    if ml.None? then (s, Ok(()))
    else
      match ExtractAnchors(env, ml.value)
      case Err(fault) => (s, Err(fault))
      case Ok(anchors) => SetAnchors(env, s, anchors, pushed)
  }

  function InstallJwks(env: Env, s: State, jwks: Option<Json>, pushed: bool): (State, Result<()>) {
    if jwks.None? then (s, Ok(()))
    else
      match JwksArgument(env, jwks.value)
      case Err(fault) => (s, Err(fault))
      case Ok(doc) => SetJwks(env, s, doc, pushed)
  }

  // What follows the installation of the JWKS: the anchors must exist and the manager be told.
  function Complete(s: State, r: Result<()>, m: Manager): (State, Response) {
    if r.Err? then (s, Refused(Status(r.fault)))
    else if s.anchors == [] then (s, Refused(400))
    else if s.managerUp && !m.complete then (s, Refused(500))
    else (s.(configured := true), Configured)
  }

  // What follows the installation of the anchors.
  function ThenJwks(env: Env, s: State, r: Result<()>, wp: Option<Json>, m: Manager): (State, Response) {
    if r.Err? then (s, Refused(Status(r.fault)))
    else
      var (installed, result) := InstallJwks(env, s, wp, m.jwksOid);
      Complete(installed, result, m)
  }

  function ConfigureStep(env: Env, s: State, binary: bool, ml: Option<bytes>, jwks: Option<Json>, m: Manager): (State,
                         Response) {
    if binary && (ml.None? || ml.value == []) then (s, Refused(400))
    else
      var wp := if binary || jwks == Some(Null) then None else jwks;
      if ml.None? && wp.None? then (s, Refused(400))
      else
        var (installed, result) := InstallAnchors(env, s, ml, m.anchorOid);
        ThenJwks(env, installed, result, wp, m)
  }

  // The boot block. The leaf state starts empty; the two digests are republished in one
  // try block, so a failure of the first skips the second.
  function RestartStep(env: Env, s: State, managerUp: bool, m: Manager): State {
    var booted := s.(configured := s.anchors != [], managerUp := managerUp, published := map[]);
    if s.anchors == [] || !managerUp || !m.anchorOid then booted
    else
      var anchored := map[TRUST_ANCHORS_OID := AnchorDigest(env, s.anchors)];
      if s.jwks.None? || !m.jwksOid then booted.(published := anchored)
      else booted.(published := anchored[WALLET_PROVIDER_JWKS_OID := JwksDigest(env, s.jwks.value)])
  }

  // ---- Active Authentication ----

  function ChallengeMinted(env: Env, s: State, nonce: bytes): Minted {
    Minted(AA_CHALLENGE_TYP, Obj(map["n" := Str(Encode(nonce)), "exp" := Int(s.now + env.cfg.challengeTtl)]))
  }

  // _b64u_field
  function B64Field(text: string): Result<bytes> {
    if text == "" then Err(ValueFault)
    else match Decode(text) case None => Err(ValueFault) case Some(b) => Ok(b)
  }

  function DecodeOrFault(text: string): Result<bytes> {
    match Decode(text) case None => Err(ValueFault) case Some(b) => Ok(b)
  }

  // An enclave-issued challenge must come back in its own unexpired token.
  function CheckChallengeToken(env: Env, s: State, blk: AaBlock): Result<()> {
    match JwsVerify(env.c, s.log, blk.token)
    case Err(ValueFault) => Err(VerificationFault)
    case Err(fault) => Err(fault)
    case Ok(payload) =>
      if !payload.Obj? then Err(CrashFault)
      else
        var exp :- Wia.ToInt(GetDefault(payload, "exp", Int(0)));
        if exp < s.now || payload.Get("n") != Str(blk.challenge) then Err(VerificationFault) else Ok(())
  }

  function CheckActiveAuth(env: Env, s: State, aa: Option<AaBlock>, groups: map<int, bytes>): Result<bool> {
    if 15 !in groups then Ok(false)
    else if aa.None? || aa.value.challenge == "" then Err(VerificationFault)
    else
      var blk := aa.value;
      var _ :- if blk.token == "" then Ok(()) else CheckChallengeToken(env, s, blk);
      var challenge :- DecodeOrFault(blk.challenge);
      var signature :- B64Field(blk.signature);
      var verdict :- ActiveAuth.Verdict(env.chip, groups[15], challenge, signature);
      match verdict
      case Valid => Ok(true)
      case Unsupported => Ok(false)
      case Invalid => Err(VerificationFault)
  }

  // ---- verify-identity ----

  function Portrait(groups: map<int, bytes>): bytes {
    if 2 in groups then groups[2] else []
  }

  // The document result of an identity request at this state.
  function Examine(env: Env, s: State, q: IdentityRequest): Result<DocResult> {
    var doc :- AuthenticateAndExtract(env.lib, s.anchors, q.doc, s.today, env.decode);
    var chip :- CheckActiveAuth(env, s, q.aa, q.doc.groups);
    Ok(doc.(chipAuth := chip))
  }

  function IvrFor(env: Env, s: State, q: IdentityRequest, doc: DocResult, bio: BioResult, holder: bytes,
                  salt: string -> Salt, jti: bytes): Minted {
    var commitments := Commitments(env.c, Committed(doc.fields, Portrait(q.doc.groups)), salt);
    Minted(IVR_TYP, IvrPayload(env.c, env.cfg.measurement, env.cfg.ivrTtl, doc, bio, holder, commitments, jti, s.now))
  }

  function IdentityOutcome(env: Env, s: State, q: IdentityRequest, salt: string -> Salt, jti: bytes): Result<Response> {
    var holder :- B64Field(q.holderPub);
    var _ :- Wia.Enforce(env.c, env.cfg.requireWia, q.wia, Wia.Keys(s.jwks), holder, s.now);
    var doc :- Examine(env, s, q);
    if q.bio.None? || !q.bio.value.faceMatch then Err(VerificationFault)
    else
      Ok(ReceiptIssued(IvrFor(env, s, q, doc, q.bio.value, holder, salt, jti),
                       Salts(Committed(doc.fields, Portrait(q.doc.groups)), salt), doc.fields, doc.viz))
  }

  // ---- prove ----

  const PREFIX := "privasys:"

  // _attr_key_for
  function AttrKey(q: ProveRequest): string {
    PREFIX + match q.path
             case AgeOverPath => AgeOverClaim(if q.threshold.None? then 0 else q.threshold.value)
             case AgeBandPath => "age_band"
             case DocumentValidPath => "document_valid"
             case PresencePath => "holder_present"
             case FieldPath => q.field
  }

  // key.removeprefix("privasys:")
  function RemovePrefix(key: string): string {
    if PREFIX <= key then key[|PREFIX|..] else key
  }

  function Authorised(h: Headers): seq<string> {
    Filter(c => c != "", Split(h.claims, ','))
  }

  // _voucher_gate: the voucher's jti, or "" when none was consumed.
  function VoucherGate(env: Env, q: ProveRequest): Result<string> {
    var authorised := Authorised(q.headers);
    if authorised != [] then
      if AttrKey(q) !in authorised then Err(VerificationFault)
      else
        var paidFor := Strip(q.headers.rpId);
        if paidFor != "" && paidFor != q.rpId then Err(VerificationFault) else Ok(q.headers.jti)
    else if env.cfg.requireVoucher && q.rpId !in env.cfg.selfAudiences then Err(VerificationFault)
    else Ok("")
  }

  function Issuer(cfg: Config, host: string): string {
    if cfg.issuer != "" then cfg.issuer
    else if host != "" then "https://" + Strip(Split(host, ',')[0])
    else "urn:privasys:identity-verifier"
  }

  // The derivation of each path, after its own required members.
  function Derive(env: Env, s: State, q: ProveRequest, ivr: Json): Derivation {
    match q.path
    case AgeOverPath =>
      if q.birthdate == "" || q.salt == "" || q.threshold.None? then Raises(ValueFault)
      else ProveAgeOver(env.c, ivr, q.birthdate, q.salt, q.threshold.value, s.today)
    case AgeBandPath =>
      if q.birthdate == "" || q.salt == "" then Raises(ValueFault)
      else ProveAgeBand(env.c, ivr, q.birthdate, q.salt, q.bands, s.today)
    case FieldPath =>
      if q.field == "" || q.value == "" || q.salt == "" then Raises(ValueFault)
      else ProveField(env.c, ivr, q.field, q.value, q.salt)
    case DocumentValidPath => ProveDocumentValid()
    case PresencePath =>
      if q.dg2 == "" || q.salt == "" || q.capture.NoSelfie? || Decode(q.dg2).None? then Raises(ValueFault)
      else if q.capture.Unmatchable? then Raises(VerificationFault)
      else ProvePresence(env.c, ivr, q.dg2, q.salt, q.capture.bio, s.now)
  }

  function Context(env: Env, s: State, q: ProveRequest, holder: bytes, voucher: string): TokenContext {
    TokenContext(q.sub, q.rpId, Issuer(env.cfg, q.headers.host), holder, voucher, env.cfg.tokenTtl, s.now)
  }

  // The established ceremony: holder check, derivation, token; whatever fails as a
  // ValueError is answered with a signed failure receipt.
  function Ceremony(env: Env, s: State, q: ProveRequest, ivr: Json, holder: bytes, sig: bytes,
                    voucher: string): Result<Json>
    requires q.ts.Some?
  {
    var x := Context(env, s, q, holder, voucher);
    var claim := RemovePrefix(AttrKey(q));
    var derivation := match CheckHolder(env.c, ivr, holder, q.rpId, q.nonce, q.ts.value, sig, s.now)
                      case Ok(_) => Derive(env, s, q, ivr)
                      case Err(fault) => Raises(fault);
    match derivation
    case Discloses(name, value, extra) =>
      (match TokenPayload(env.c, ivr, x, name, value, extra, None)
       case Ok(payload) => Ok(payload)
       case Err(ValueFault) => TokenPayload(env.c, ivr, x, claim, Bool(false), map[], Some(false))
       case Err(fault) => Err(fault))
    case Fails(retryable) => TokenPayload(env.c, ivr, x, claim, Bool(false), map[], Some(retryable))
    case Raises(ValueFault) => TokenPayload(env.c, ivr, x, claim, Bool(false), map[], Some(false))
    case Raises(fault) => Err(fault)
  }

  function ProveOutcome(env: Env, s: State, q: ProveRequest): Result<Response> {
    if q.ivr == "" then Err(ValueFault)
    else
      var ivr :- VerifyIvr(env.c, s.log, q.ivr, s.now);
      if q.sub == "" || q.rpId == "" then Err(ValueFault)
      else
        var holder :- B64Field(q.holderPub);
        var _ :- Wia.Enforce(env.c, env.cfg.requireWia, q.wia, Wia.Keys(s.jwks), holder, s.now);
        var voucher :- VoucherGate(env, q);
        if q.nonce == "" || q.ts.None? then Err(ValueFault)
        else
          var sig :- B64Field(q.holderSig);
          var payload :- Ceremony(env, s, q, ivr, holder, sig, voucher);
          Ok(Disclosed(Minted(DISCLOSURE_TYP, payload), if voucher == "" then None else Some(voucher)))
  }

  // ---- One request ----

  // A handler that minted something logs it; one that raised changes nothing.
  function Conclude(s: State, r: Result<Response>): (State, Response) {
    match r
    case Err(fault) => (s, Refused(Status(fault)))
    case Ok(response) =>
      if response.ChallengeIssued? || response.ReceiptIssued? || response.Disclosed?
      then (s.(log := s.log + {response.minted}), response)
      else (s, response)
  }

  function Step(env: Env, s: State, q: Request): (State, Response) {
    match q
    case Configure(binary, ml, jwks, m) => ConfigureStep(env, s, binary, ml, jwks, m)
    case Restart(managerUp, m) => (RestartStep(env, s, managerUp, m), Done)
    case Tick(now, today) => (s.(now := now, today := today), Done)
    case Challenge(nonce) =>
      if !s.configured then (s, Refused(503))
      else Conclude(s, Ok(ChallengeIssued(ChallengeMinted(env, s, nonce))))
    case Identity(identity, salt, jti) =>
      if !s.configured then (s, Refused(503))
      else Conclude(s, IdentityOutcome(env, s, identity, salt, jti))
    case Prove(prove) => if !s.configured then (s, Refused(503)) else Conclude(s, ProveOutcome(env, s, prove))
  }

  // ---- The process ----

  class Verifier {
    const env: Env
    var configured: bool
    var managerUp: bool
    var anchors: seq<bytes>
    var jwks: Option<Json>
    var published: map<string, bytes>
    var log: set<Minted>
    var now: int
    var today: Today

    ghost function View(): State
      reads this
    {
      State(configured, managerUp, anchors, jwks, published, log, now, today)
    }

    constructor (env: Env, managerUp: bool, now: int, today: Today)
      ensures this.env == env
      ensures View() == State(false, managerUp, [], None, map[], {}, now, today)
    {
      this.env := env;
      this.configured, this.managerUp := false, managerUp;
      this.anchors, this.jwks, this.published := [], None, map[];
      this.log, this.now, this.today := {}, now, today;
    }

    method StoreAnchors(pem: seq<bytes>, pushed: bool) returns (r: Result<()>)
      modifies this
      ensures (View(), r) == SetAnchors(env, old(View()), pem, pushed)
    {
      if !env.loadable(pem) { return Err(ValueFault); }
      anchors := pem;
      if managerUp {
        if !pushed { return Err(CrashFault); }
        published := published[TRUST_ANCHORS_OID := AnchorDigest(env, pem)];
      }
      r := Ok(());
    }

    method StoreJwks(doc: Json, pushed: bool) returns (r: Result<()>)
      modifies this
      ensures (View(), r) == SetJwks(env, old(View()), doc, pushed)
    {
      var keys := Wia.Validate(env.c, doc);
      if keys.Err? { return Err(keys.fault); }
      jwks := Some(doc);
      if managerUp {
        if !pushed { return Err(CrashFault); }
        published := published[WALLET_PROVIDER_JWKS_OID := JwksDigest(env, doc)];
      }
      r := Ok(());
    }

    method HandleConfigure(binary: bool, ml: Option<bytes>, wpJwks: Option<Json>,
                           m: Manager) returns (response: Response)
      modifies this
      ensures (View(), response) == ConfigureStep(env, old(View()), binary, ml, wpJwks, m)
    {
      if binary && (ml.None? || ml.value == []) { return Refused(400); }
      var wp := if binary || wpJwks == Some(Null) then None else wpJwks;
      if ml.None? && wp.None? { return Refused(400); }
      if ml.Some? {
        var extracted := ExtractAnchors(env, ml.value);
        if extracted.Err? { return Refused(Status(extracted.fault)); }
        var r := StoreAnchors(extracted.value, m.anchorOid);
        if r.Err? { return Refused(Status(r.fault)); }
      }
      if wp.Some? {
        var doc := JwksArgument(env, wp.value);
        if doc.Err? { return Refused(Status(doc.fault)); }
        var r := StoreJwks(doc.value, m.jwksOid);
        if r.Err? { return Refused(Status(r.fault)); }
      }
      if anchors == [] { return Refused(400); }
      if managerUp && !m.complete { return Refused(500); }
      configured := true;
      response := Configured;
    }

    // republish_oid of the anchors and of the JWKS; false is a raised exception.
    method RepublishAnchors(pushed: bool) returns (ok: bool)
      modifies this
      ensures ok == (anchors == [] || !managerUp || pushed)
      ensures View() == old(View()).(published :=
                if anchors == [] || !managerUp || !pushed then old(published)
                else old(published)[TRUST_ANCHORS_OID := AnchorDigest(env, anchors)])
    {
      if anchors == [] || !managerUp { return true; }
      if !pushed { return false; }
      published := published[TRUST_ANCHORS_OID := AnchorDigest(env, anchors)];
      ok := true;
    }

    method RepublishJwks(pushed: bool) returns (ok: bool)
      modifies this
      ensures ok == (jwks.None? || !managerUp || pushed)
      ensures View() == old(View()).(published :=
                if jwks.None? || !managerUp || !pushed then old(published)
                else old(published)[WALLET_PROVIDER_JWKS_OID := JwksDigest(env, jwks.value)])
    {
      if jwks.None? || !managerUp { return true; }
      if !pushed { return false; }
      published := published[WALLET_PROVIDER_JWKS_OID := JwksDigest(env, jwks.value)];
      ok := true;
    }

    method Boot(managerAvailable: bool, m: Manager)
      modifies this
      ensures View() == RestartStep(env, old(View()), managerAvailable, m)
    {
      configured, managerUp, published := false, managerAvailable, map[];
      if anchors != [] {
        configured := true;
        if managerUp {
          var ok := RepublishAnchors(m.anchorOid);
          if ok {
            ok := RepublishJwks(m.jwksOid);
          }
        }
      }
    }

    method HandleChallenge(nonce: bytes) returns (response: Response)
      modifies this
      ensures (View(), response) == Step(env, old(View()), Challenge(nonce))
    {
      if !configured { return Refused(503); }
      var m := Minted(AA_CHALLENGE_TYP, Obj(map["n" := Str(Encode(nonce)), "exp" := Int(now + env.cfg.challengeTtl)]));
      log := log + {m};
      response := ChallengeIssued(m);
    }

    // The arguments the handlers read of the process: a snapshot of its state.
    method Snapshot() returns (s: State)
      ensures s == View()
    {
      s := State(configured, managerUp, anchors, jwks, published, log, now, today);
    }

    method HandleIdentity(q: IdentityRequest, salt: string -> Salt, jti: bytes) returns (response: Response)
      modifies this
      ensures (View(), response) == Step(env, old(View()), Identity(q, salt, jti))
    {
      if !configured { return Refused(503); }
      var s := Snapshot();
      var holder := B64Field(q.holderPub);
      if holder.Err? { return Refused(Status(holder.fault)); }
      var wia := Wia.Enforce(env.c, env.cfg.requireWia, q.wia, Wia.Keys(jwks), holder.value, now);
      if wia.Err? { return Refused(Status(wia.fault)); }
      var doc := AuthenticateAndExtract(env.lib, anchors, q.doc, today, env.decode);
      if doc.Err? { return Refused(Status(doc.fault)); }
      var chip := CheckActiveAuth(env, s, q.aa, q.doc.groups);
      if chip.Err? { return Refused(Status(chip.fault)); }
      if q.bio.None? || !q.bio.value.faceMatch { return Refused(400); }
      var result := doc.value.(chipAuth := chip.value);
      var filled := CommitFields(env.c, result.fields, Portrait(q.doc.groups), salt);
      var m := Minted(IVR_TYP, IvrPayload(env.c, env.cfg.measurement, env.cfg.ivrTtl, result, q.bio.value, holder.value,
                                          filled.commitments, jti, now));
      log := log + {m};
      response := ReceiptIssued(m, filled.salts, result.fields, result.viz);
    }

    method HandleProve(q: ProveRequest) returns (response: Response)
      modifies this
      ensures (View(), response) == Step(env, old(View()), Prove(q))
    {
      if !configured { return Refused(503); }
      var s := Snapshot();
      if q.ivr == "" { return Refused(400); }
      var ivr := VerifyIvr(env.c, log, q.ivr, now);
      if ivr.Err? { return Refused(Status(ivr.fault)); }
      if q.sub == "" || q.rpId == "" { return Refused(400); }
      var holder := B64Field(q.holderPub);
      if holder.Err? { return Refused(Status(holder.fault)); }
      var wia := Wia.Enforce(env.c, env.cfg.requireWia, q.wia, Wia.Keys(jwks), holder.value, now);
      if wia.Err? { return Refused(Status(wia.fault)); }
      var voucher := VoucherGate(env, q);
      if voucher.Err? { return Refused(Status(voucher.fault)); }
      if q.nonce == "" || q.ts.None? { return Refused(400); }
      var sig := B64Field(q.holderSig);
      if sig.Err? { return Refused(Status(sig.fault)); }
      var payload := Ceremony(env, s, q, ivr.value, holder.value, sig.value, voucher.value);
      if payload.Err? { return Refused(Status(payload.fault)); }
      var m := Minted(DISCLOSURE_TYP, payload.value);
      log := log + {m};
      response := Disclosed(m, if voucher.value == "" then None else Some(voucher.value));
    }
  }
}

// The theorems about runs are not empty: a valid run in which a disclosure succeeds.
module Reachable {
  import opened Prelude
  import opened Text
  import opened Dates
  import opened Base64Url
  import opened Jose
  import opened Pki
  import MasterList
  import PassiveAuth
  import ActiveAuth
  import Wia
  import opened Td3
  import opened Verification
  import opened Receipt
  import opened Server
  import opened Runs
  import opened Provenance
  import opened Completeness
  import opened Shortfalls
  import Witness

  const ROOT := Cert([9], 1, "CSCA", "CSCA", None, None, 0, 1)
  const INFO := SignerInfo(BySerial(1), "sha256", [], [])
  const LIST := Cms(true, MasterList.LIST_OID, Some([1]), [INFO], [ROOT])
  const SOD := Cms(true, PassiveAuth.LDS_OID, Some([2]), [INFO], [ROOT])

  const TODAY := Date(2030, 4, 15)
  const HOLDER: Passport :=
    Passport("L898902C3", "UTO", 1974, 8, 12, 'F', 2030, 4, 15, Repeat('<', 14))

  function Dg1(): bytes {
    if HOLDER.Valid(2030) then BuildDg1(Page(Repeat('<', 44), HOLDER, 2030)) else []
  }

  lemma HolderIsValid()
    ensures HOLDER.Valid(2030) && AllMrz(Repeat('<', 44))
    ensures Dg1() == BuildDg1(Page(Repeat('<', 44), HOLDER, 2030))
  {}

  // Libraries under which one root signs everything: the list, the document and itself.
  function OneRoot(dg1: bytes): Library {
    Library(text => if text == [1] then Some(LIST) else Some(SOD), _ => ROOT, _ => Some([ROOT]),
            _ => Some(Lds("sha256", map[1 := dg1])), _ => [], _ => "UTO", _ => [], (_, data) => Some(data),
            (_, _) => true, (_, _, _, _) => true)
  }

  ghost function World(): Env {
    var cfg := Config(false, false, {}, 600, 300, 60, "build", "", [0, 9], 10);
    Env(Witness.Ideal(), OneRoot(Dg1()), cfg, _ => "", _ => true,
        ActiveAuth.ChipLibrary(_ => None, (_, _, _, _) => false))
  }

  lemma ListIsSigned(dg1: bytes)
    ensures MasterList.SignedList(OneRoot(dg1), [1]) == Ok((LIST, ROOT, [1]))
  {}

  lemma RootIsReached(dg1: bytes, sha256: bytes -> bytes)
    requires sha256([9]) == [0, 9]
    ensures MasterList.Climb(MasterList.Trust(OneRoot(dg1), [ROOT], sha256, [0, 9]), ROOT, 10) == MasterList.Reached
  {
    var t := MasterList.Trust(OneRoot(dg1), [ROOT], sha256, [0, 9]);
    assert MasterList.Certifies(t, t.certs[0], ROOT);
    assert MasterList.FirstIssuer(t, ROOT, 0) == Some(ROOT);
  }

  lemma OneCertificate()
    ensures MasterList.FirstOccurrences(MasterList.Ders([ROOT])) == [[9]]
  {
    var one: seq<bytes> := [[9]];
    assert MasterList.Ders([ROOT]) == one && one[..0] == [];
  }

  lemma ListExtracts(dg1: bytes, sha256: bytes -> bytes)
    requires sha256([9]) == [0, 9]
    ensures MasterList.VerifyAndExtract(OneRoot(dg1), sha256, [0, 9], 10, [1]) == Ok([[9]])
  {
    ListIsSigned(dg1);
    RootIsReached(dg1, sha256);
    OneCertificate();
  }

  lemma ListIsAccepted()
    ensures ExtractAnchors(World(), [1]) == Ok([[9]])
  {
    ListExtracts(Dg1(), World().c.sha256);
  }

  lemma SodVerifies(dg1: bytes)
    ensures PassiveAuth.Verify(OneRoot(dg1), [3], [[9]]) ==
            Ok(PassiveAuth.PAResult("sha256", map[1 := dg1], "UTO", false))
  {
    var lib := OneRoot(dg1);
    assert PassiveAuth.SignedSod(lib, [3]) == Ok((ROOT, INFO, [2]));
    var parsed := Map(lib.parseCert, [[9]]);
    assert parsed == [ROOT] && ROOT in parsed;
    PassiveAuth.AcceptedIffSomeAnchorVerifies(lib, ROOT, parsed);
    var csca := PassiveAuth.FirstVerifying(lib, ROOT, PassiveAuth.CandidateAnchors(ROOT, parsed)).value;
    assert csca == ROOT && PassiveAuth.ValidAt(ROOT, None);
    assert PassiveAuth.SigningTimeOf(INFO.attrs) == None;
    assert 1 in map[1 := dg1];
  }

  function Paper(dg1: bytes): Document {
    Document(Some([3]), map[1 := dg1], None)
  }

  lemma PaperMatches(dg1: bytes)
    ensures GroupsMatch(OneRoot(dg1), PassiveAuth.PAResult("sha256", map[1 := dg1], "UTO", false), Paper(dg1).groups)
  {}

  // The document verifies under that root.
  lemma DocumentIsAccepted(decode: bytes -> string)
    ensures AuthenticateAndExtract(OneRoot(Dg1()), [[9]], Paper(Dg1()), TODAY, decode).Ok?
  {
    HolderIsValid();
    SodVerifies(Dg1());
    PaperMatches(Dg1());
    PrintedDocumentAccepted(OneRoot(Dg1()), [[9]], Paper(Dg1()), Repeat('<', 44), HOLDER, TODAY, decode);
  }

  // ---- The run ----

  function Zeros(n: nat): (b: bytes)
    ensures |b| == n
  {
    seq(n, _ => 0)
  }

  function Key(): (key: bytes)
    ensures |key| == 65 && key[0] == 4
  {
    [4] + Zeros(64)
  }

  ghost function Start(): State {
    State(false, false, [], None, map[], {}, 0, TODAY)
  }

  ghost function Setup(): Request {
    Configure(true, Some([1]), None, Manager(true, true, true))
  }

  function Presented(): IdentityRequest {
    IdentityRequest(Encode(Key()), "", Paper(Dg1()), None, Some(BioResult(true, 0)))
  }

  ghost function Enrolment(): Request {
    Identity(Presented(), _ => Zeros(16), [7])
  }

  function Asked(ivr: string): ProveRequest {
    ProveRequest(DocumentValidPath, ivr, "holder", "shop", Encode(Key()), "", "nonce", Some(0), Encode(Zeros(64)),
                 "", "", None, [], "", "", "", NoSelfie, Headers("", "", "", ""))
  }

  lemma FieldsDecode()
    ensures B64Field(Encode(Key())) == Ok(Key()) && B64Field(Encode(Zeros(64))) == Ok(Zeros(64))
    ensures FromRaw(World().c, Key()).Ok? && DerSignature(Zeros(64)).Some?
  {
    EncodedAlphabet(Key());
    EncodedAlphabet(Zeros(64));
    DecodeUndoesEncode(Key());
    DecodeUndoesEncode(Zeros(64));
  }

  lemma SetupUnfreezes()
    ensures Step(World(), Start(), Setup()).0 == Start().(configured := true, anchors := [[9]])
  {
    ListIsAccepted();
  }

  lemma ExaminedWithoutChip(env: Env, s: State, q: IdentityRequest)
    requires AuthenticateAndExtract(env.lib, s.anchors, q.doc, s.today, env.decode).Ok? && 15 !in q.doc.groups
    ensures Examine(env, s, q).Ok?
  {}

  lemma OutcomeWhen(env: Env, s: State, q: IdentityRequest, salt: string -> Salt, jti: bytes)
    requires B64Field(q.holderPub).Ok? && !env.cfg.requireWia && q.wia == ""
    requires Examine(env, s, q).Ok? && q.bio.Some? && q.bio.value.faceMatch
    ensures IdentityOutcome(env, s, q, salt, jti).Ok? && IdentityOutcome(env, s, q, salt, jti).value.ReceiptIssued?
  {}

  lemma IssuedWhen(env: Env, s: State, q: IdentityRequest, salt: string -> Salt, jti: bytes, reply: Response)
    requires s.configured && IdentityOutcome(env, s, q, salt, jti) == Ok(reply) && reply.ReceiptIssued?
    ensures Step(env, s, Identity(q, salt, jti)) == (s.(log := s.log + {reply.minted}), reply)
  {}

  lemma EnrolmentIssues(s: State)
    requires s == Start().(configured := true, anchors := [[9]])
    ensures var (after, reply) := Step(World(), s, Enrolment());
            reply.ReceiptIssued? && after == s.(log := s.log + {reply.minted})
  {
    FieldsDecode();
    DocumentIsAccepted(World().decode);
    ExaminedWithoutChip(World(), s, Presented());
    OutcomeWhen(World(), s, Presented(), Enrolment().salt, [7]);
    IssuedWhen(World(), s, Presented(), Enrolment().salt, [7],
               IdentityOutcome(World(), s, Presented(), Enrolment().salt, [7]).value);
  }

  // The holder asks one second later, on the day after the document has expired.
  const NEXT_DAY := Date(2030, 4, 16)

  lemma AskedPasses(env: Env, ivr: Json)
    requires env == World() && IvrShaped(ivr) && ivr.Get("holder_binding") == Str(HolderBinding(env.c, Key()))
    ensures CheckHolder(env.c, ivr, Key(), "shop", "nonce", 0, Zeros(64), 1).Ok?
  {
    FieldsDecode();
  }

  lemma NoVoucher(ivr: string)
    ensures VoucherGate(World(), Asked(ivr)) == Ok("")
  {}

  lemma NoAttestation(keys: seq<Json>)
    ensures Wia.Enforce(World().c, World().cfg.requireWia, "", keys, Key(), 1).Ok?
  {}

  lemma TokenNotEmpty(c: Primitives, m: Minted)
    requires c.Sound()
    ensures JwsSign(c, m) != ""
  {}

  // What SomeRun builds.
  ghost predicate Scene(run: Run) {
    && run.Valid() && |run.requests| == 4 && run.env == World()
    && run.Reply(1).ReceiptIssued? && run.requests[1] == Enrolment()
    && run.requests[3] == Prove(Asked(JwsSign(run.env.c, run.Reply(1).minted)))
    && run.At(1).now == 0 && run.At(1).today == TODAY && run.At(3).now == 1 && run.At(3).today == NEXT_DAY
    && run.At(3).configured
  }

  lemma AskedIsHonest(run: Run)
    requires Scene(run)
    ensures Honest(run, 1, 3)
  {
    var m := run.Reply(1).minted;
    FieldsDecode();
    var holder := ReceiptBehind(run, 1);
    IssuedPasses(run, 1);
    ReceiptAccepted(run, 1, 3);
    AskedPasses(run.env, m.payload);
    NoVoucher(JwsSign(run.env.c, m));
    NoAttestation(Wia.Keys(run.At(3).jwks));
    TokenNotEmpty(run.env.c, m);
    HonestWhen(run, JwsSign(run.env.c, m));
  }

  lemma HonestWhen(run: Run, token: string)
    requires run.Valid() && |run.requests| == 4 && run.Reply(1).ReceiptIssued?
    requires run.At(3).now == 1 && run.At(3).configured && run.requests[3] == Prove(Asked(token)) && token != ""
    requires var ivr := run.Reply(1).minted.payload;
             && VerifyIvr(run.env.c, run.At(3).log, token, 1) == Ok(ivr) && VoucherGate(run.env, Asked(token)).Ok?
             && B64Field(Encode(Key())) == Ok(Key()) && B64Field(Encode(Zeros(64))) == Ok(Zeros(64))
             && Wia.Enforce(run.env.c, run.env.cfg.requireWia, "", Wia.Keys(run.At(3).jwks), Key(), 1).Ok?
             && CheckHolder(run.env.c, ivr, Key(), "shop", "nonce", 0, Zeros(64), 1).Ok?
    ensures Honest(run, 1, 3)
  {}

  lemma TwoRequests(env: Env, s: State, q: Request, enrol: Request) returns (run: Run)
    ensures run.Steps() && run.env == env && run.requests == [q, enrol] && run.states[0] == s
    ensures run.At(1) == Step(env, s, q).0 && (run.At(2), run.Reply(1)) == Step(env, run.At(1), enrol)
  {
    run := Run(env, [s], [], []);
    run := ExtendRun(run, q);
    run := ExtendRun(run, enrol);
  }

  lemma TickedRun(run: Run, now: int, today: Today) returns (longer: Run)
    requires run.Steps() && |run.requests| == 2
    ensures longer.Steps() && longer.env == run.env && |longer.requests| == 3 && longer.requests[..2] == run.requests
    ensures longer.states[..3] == run.states && longer.replies[..2] == run.replies
    ensures longer.At(3) == run.At(2).(now := now, today := today)
  {
    longer := ExtendRun(run, Tick(now, today));
  }

  // A run of four requests: the verifier is configured, a document enrolled on its last day of
  // validity, midnight passes, and the holder proves that the document is valid. The run is
  // valid and the disclosure succeeds.
  lemma SomeDisclosureSucceeds() returns (run: Run)
    ensures run.Valid() && |run.requests| == 4 && run.Reply(1).ReceiptIssued? && Succeeded(run, 3)
    ensures run.requests[3].Prove? && run.requests[3].prove.path.DocumentValidPath?
    ensures run.Reply(3).minted.payload.Get("value") == Bool(true)
    ensures run.requests[1].Identity? && Examine(run.env, run.At(1), run.requests[1].identity).Ok?
    ensures ExpiresOn(run, 1, TODAY) && TODAY.Before(run.At(3).today)
  {
    run := SomeRun();
    AskedIsHonest(run);
    var doc, bio, holder := IssuedFrom(run, 1);
    HonestDisclosure(run, 1, 3);
    SceneExpires(run);
  }

  lemma SceneExpires(run: Run)
    requires Scene(run) && run.requests[1].Identity?
    requires Examine(run.env, run.At(1), run.requests[1].identity).Ok?
    ensures ExpiresOn(run, 1, TODAY)
  {
    ExaminedIsAuthentic(run.env, run.At(1), run.requests[1].identity);
    PaperExpires(World().decode);
  }

  lemma PaperExpires(decode: bytes -> string)
    ensures var fields := CertifiedFields(Paper(Dg1()).groups, 2030, decode);
            && fields.Ok? && "doc_expiry" in fields.value && ParseDate(fields.value["doc_expiry"]) == Some(TODAY)
  {
    HolderIsValid();
    PrintedFieldsCertified(Paper(Dg1()).groups, Repeat('<', 44), HOLDER, TODAY, decode);
    PrintedDateParses(TODAY);
  }

  // Configured and enrolled.
  lemma FirstHalf() returns (run: Run)
    ensures run.Valid() && run.env == World() && |run.requests| == 2 && run.requests[1] == Enrolment()
    ensures run.Reply(1).ReceiptIssued? && run.At(1).now == 0 && run.At(1).today == TODAY && run.At(2).configured
  {
    Witness.IdealIsSound();
    SetupUnfreezes();
    EnrolmentIssues(Step(World(), Start(), Setup()).0);
    run := TwoRequests(World(), Start(), Setup(), Enrolment());
  }

  lemma SecondHalf(two: Run, token: string) returns (run: Run)
    requires two.Valid() && |two.requests| == 2 && two.At(2).configured
    ensures run.Valid() && |run.requests| == 4 && run.env == two.env
    ensures run.At(1) == two.At(1) && run.Reply(1) == two.Reply(1) && run.requests[1] == two.requests[1]
    ensures run.requests[3] == Prove(Asked(token))
    ensures run.At(3).now == 1 && run.At(3).today == NEXT_DAY && run.At(3).configured
  {
    var three := TickedRun(two, 1, NEXT_DAY);
    run := ExtendRun(three, Prove(Asked(token)));
    assert three.states[..3][0] == run.states[0] && three.states[..3][1] == run.states[1];
    assert three.replies[..2][1] == run.replies[1] && three.requests[..2][1] == run.requests[1];
  }

  lemma SomeRun() returns (run: Run)
    ensures Scene(run)
  {
    var two := FirstHalf();
    run := SecondHalf(two, JwsSign(two.env.c, two.Reply(1).minted));
  }
}

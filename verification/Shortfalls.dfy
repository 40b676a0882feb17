// Where the program falls short of what it promises: the input that shows it, in whole runs.
module Shortfalls {
  import opened Prelude
  import opened BerTlv
  import opened Dates
  import opened Base64Url
  import opened Jose
  import Td3
  import Dg11
  import opened Verification
  import opened Receipt
  import opened Server
  import opened Runs
  import opened Provenance
  import opened Completeness
  import opened Openings

  // ---- A certified field that is empty ----

  // A DG11 with one element, a place of birth that is a single filler character.
  const FILLER_PLACE: bytes := Td3.Wrap([0x6B], [0x5F, 0x11, 1, 0x3C])

  lemma FillerPlaceParses(decode: bytes -> string)
    requires decode([0x3C]) == "<"
    ensures Dg11.PersonalDetails(FILLER_PLACE, decode) == Ok(map["place_of_birth" := ""])
  {
    var e := Element([0x5F, 0x11], [1], [0x3C]);
    assert EncodeAll([e]) == e.Encoding() + EncodeAll([]) == [0x5F, 0x11, 1, 0x3C];
    Dg11.BuiltDg11([e], decode);
    PlaceTag();
    assert Visited([e]) == [(Dg11.PLACE_TAG, [0x3C])];
    FillerCollected(decode);
  }

  lemma PlaceTag()
    ensures BigEndian([0x5F, 0x11]) == Dg11.PLACE_TAG
  {
    var tag: bytes := [0x5F, 0x11];
    BigEndianSnoc(tag, 1);
    Dg11.OneByteTag(0x5F);
    assert tag[..1] == [0x5F] && tag[..2] == tag;
  }

  lemma FillerCollected(decode: bytes -> string)
    requires decode([0x3C]) == "<"
    ensures Dg11.Collected([(Dg11.PLACE_TAG, [0x3C])], decode) == map["place_of_birth" := ""]
  {
    Dg11.FillerIsEmptyPlace();
    var elements: seq<(nat, bytes)> := [(Dg11.PLACE_TAG, [0x3C])];
    assert elements[..0] == [];
  }

  lemma EmptyPlaceCertified(groups: map<int, bytes>, now: nat, decode: bytes -> string, dg2: bytes)
    requires 1 in groups && 11 in groups && groups[11] == FILLER_PLACE && decode([0x3C]) == "<"
    requires CertifiedFields(groups, now, decode).Ok?
    ensures var values := Committed(CertifiedFields(groups, now, decode).value, dg2);
            "place_of_birth" in values && values["place_of_birth"] == ""
  {
    FillerPlaceParses(decode);
  }

  predicate ProvesPlace(q: Request) {
    q.Prove? && q.prove.path == FieldPath && q.prove.field == "place_of_birth"
  }

  // Whoever is issued a receipt for such a document holds a commitment to the empty string,
  // with its salt,
  lemma EmptyPlaceCommitted(run: Run, j: nat)
    requires run.Valid() && j < |run.requests| && run.Reply(j).ReceiptIssued? && run.requests[j].Identity?
    requires var groups := run.requests[j].identity.doc.groups; 11 in groups && groups[11] == FILLER_PLACE
    requires run.env.decode([0x3C]) == "<"
    ensures Examine(run.env, run.At(j), run.requests[j].identity).Ok?
    ensures "place_of_birth" in CommittedAt(run, j) && CommittedAt(run, j)["place_of_birth"] == ""
    ensures "place_of_birth" in run.Reply(j).salts
  {
    SaltsOfReceipt(run, j);
    EmptyPlaceExamined(run.env, run.At(j), run.requests[j].identity);
  }

  lemma EmptyPlaceExamined(env: Env, s: State, q: IdentityRequest)
    requires Examine(env, s, q).Ok? && 11 in q.doc.groups && q.doc.groups[11] == FILLER_PLACE
    requires env.decode([0x3C]) == "<"
    ensures var values := Committed(Examine(env, s, q).value.fields, Portrait(q.doc.groups));
            "place_of_birth" in values && values["place_of_birth"] == ""
  {
    ResultIsAuthentic(env.lib, s.anchors, q.doc, s.today, env.decode);
    EmptyPlaceCertified(q.doc.groups, s.today.year, env.decode, Portrait(q.doc.groups));
  }

  // and with that salt the holder never gets it disclosed.
  lemma EmptyPlaceNeverDisclosed(run: Run, j: nat, i: nat)
    requires run.Valid() && j < i < |run.requests| && run.Reply(j).ReceiptIssued? && run.requests[j].Identity?
    requires var groups := run.requests[j].identity.doc.groups; 11 in groups && groups[11] == FILLER_PLACE
    requires run.env.decode([0x3C]) == "<"
    requires Examine(run.env, run.At(j), run.requests[j].identity).Ok?
    requires Honest(run, j, i) && ProvesPlace(run.requests[i]) && OpensOwn(run, j, i)
    ensures !Succeeded(run, i)
  {
    EmptyPlaceCommitted(run, j);
    HonestFieldDisclosure(run, j, i);
  }

  // Giving the first byte of that salt as the place, and the rest as the salt, discloses it.
  lemma EmptyPlaceReadFromSalt(run: Run, j: nat, i: nat)
    requires run.Valid() && j < i < |run.requests| && run.Reply(j).ReceiptIssued? && run.requests[j].Identity?
    requires var groups := run.requests[j].identity.doc.groups; 11 in groups && groups[11] == FILLER_PLACE
    requires run.env.decode([0x3C]) == "<"
    requires Honest(run, j, i) && ProvesPlace(run.requests[i])
    requires var q, salt := run.requests[i].prove, run.requests[j].salt("place_of_birth");
             salt[0] < 128 && q.value == [salt[0] as char] && q.salt == Encode(salt[1..])
    ensures Succeeded(run, i) && run.Reply(i).minted.payload.Get("value") == Str(run.requests[i].prove.value)
  {
    var q, ivr, salt := run.requests[i].prove, run.Reply(j).minted.payload, run.requests[j].salt;
    EmptyPlaceCommitted(run, j);
    var holder := ReceiptBehind(run, j);
    EmptyFieldReadFromSalt(run.env.c, ivr, CommittedAt(run, j), salt, "place_of_birth");
    EncodedAlphabet(salt("place_of_birth")[1..]);
    PlaceDerives(run.env, run.At(i), q, ivr);
    HonestSucceeds(run, j, i);
  }

  lemma PlaceDerives(env: Env, s: State, q: ProveRequest, ivr: Json)
    requires q.path == FieldPath && q.field == "place_of_birth" && q.value != "" && q.salt != ""
    ensures Derive(env, s, q, ivr) == ProveField(env.c, ivr, q.field, q.value, q.salt)
  {}

  // ---- The term of a receipt and the expiry of its document ----

  // The day of expiry recorded in what request j certified.
  ghost predicate ExpiresOn(run: Run, j: nat, expiry: Date)
    requires run.Steps() && j < |run.requests| && run.requests[j].Identity?
    requires Examine(run.env, run.At(j), run.requests[j].identity).Ok?
  {
    var fields := Examine(run.env, run.At(j), run.requests[j].identity).value.fields;
    "doc_expiry" in fields && ParseDate(fields["doc_expiry"]) == Some(expiry)
  }

  // A receipt is issued up to the day its document expires,
  lemma IssuedUnexpired(run: Run, j: nat) returns (expiry: Date)
    requires run.Steps() && j < |run.requests| && run.requests[j].Identity?
    requires Examine(run.env, run.At(j), run.requests[j].identity).Ok?
    ensures ExpiresOn(run, j, expiry) && !expiry.Before(run.At(j).today)
  {
    expiry := ExaminedUnexpired(run.env, run.At(j), run.requests[j].identity);
  }

  lemma ExaminedUnexpired(env: Env, s: State, q: IdentityRequest) returns (expiry: Date)
    requires Examine(env, s, q).Ok?
    ensures var fields := Examine(env, s, q).value.fields;
            "doc_expiry" in fields && ParseDate(fields["doc_expiry"]) == Some(expiry) && !expiry.Before(s.today)
  {
    ResultIsAuthentic(env.lib, s.anchors, q.doc, s.today, env.decode);
    expiry := ParseDate(Examine(env, s, q).value.fields["doc_expiry"]).value;
  }

  // but its term does not end with the document: it is accepted for the whole of it, and on
  // an expired document exactly when the day of expiry has passed in the meantime.
  lemma TermIgnoresExpiry(run: Run, j: nat, i: nat) returns (expiry: Date)
    requires run.Valid() && j < i < |run.requests| && run.Reply(j).ReceiptIssued?
    requires run.At(i).now <= run.At(j).now + run.env.cfg.ivrTtl
    ensures run.requests[j].Identity? && Examine(run.env, run.At(j), run.requests[j].identity).Ok?
    ensures ExpiresOn(run, j, expiry)
    ensures var m, fields := run.Reply(j).minted, Examine(run.env, run.At(j), run.requests[j].identity).value.fields;
            && VerifyIvr(run.env.c, run.At(i).log, JwsSign(run.env.c, m), run.At(i).now) == Ok(m.payload)
            && (Expired(fields, run.At(i).today) <==> expiry.Before(run.At(i).today))
  {
    SaltsOfReceipt(run, j);
    expiry := IssuedUnexpired(run, j);
    ReceiptAccepted(run, j, i);
  }

  // A successful document_valid token says true whatever the day; the document was unexpired
  // when its receipt was issued, and is when the token is minted exactly when the day of
  // expiry has not passed.
  lemma DocumentValidSays(run: Run, i: nat) returns (j: nat, holder: bytes, expiry: Date)
    requires run.Valid() && i < |run.requests| && Succeeded(run, i)
    requires run.requests[i].Prove? && run.requests[i].prove.path.DocumentValidPath?
    ensures j < i && TracesTo(run, i, j, holder) && ExpiresOn(run, j, expiry)
    ensures run.Reply(i).minted.payload.Get("value") == Bool(true)
    ensures var fields := Examine(run.env, run.At(j), run.requests[j].identity).value.fields;
            && !Expired(fields, run.At(j).today)
            && (Expired(fields, run.At(i).today) <==> expiry.Before(run.At(i).today))
  {
    j, holder := DisclosureProvenance(run, i);
    expiry := IssuedUnexpired(run, j);
  }

  // ---- The relying party's check ----

  // A signed payload the check can accept at this time.
  predicate Unexpired(p: Json, now: int) {
    p.Obj? && GetDefault(p, "exp", Int(0)).Int? && GetDefault(p, "exp", Int(0)).n >= now
  }

  // Over all texts, what verify_disclosure returns is exactly the unexpired payloads of the
  // key, of whatever kind.
  lemma DisclosureCheckAcceptsEveryKind(c: Primitives, log: set<Minted>, p: Json, now: int)
    requires c.Sound()
    ensures (exists token :: VerifyDisclosure(c, log, token, now) == Ok(p)) <==>
            (exists m :: m in log && m.payload == p && Unexpired(p, now))
  {
    if token :| VerifyDisclosure(c, log, token, now) == Ok(p) {
      var m := VerifiedWasSigned(c, log, IssuerPart(token));
      assert m in log && m.payload == p && Unexpired(p, now);
    }
    if m :| m in log && m.payload == p && Unexpired(p, now) {
      LoggedPassesTheCheck(c, log, m, now);
    }
  }

  lemma LoggedPassesTheCheck(c: Primitives, log: set<Minted>, m: Minted, now: int)
    requires c.Sound() && m in log && Unexpired(m.payload, now)
    ensures VerifyDisclosure(c, log, JwsSign(c, m) + "~", now) == Ok(m.payload)
  {
    VerifyUndoesSdJwt(c, log, m);
  }

  // The term of what request j minted, when it is not a disclosure.
  function Term(run: Run, j: nat): nat
    requires j < |run.replies|
  {
    if run.replies[j].ReceiptIssued? then run.env.cfg.ivrTtl else run.env.cfg.challengeTtl
  }

  lemma MintedTerm(run: Run, j: nat)
    requires run.Steps() && j < |run.requests| && (run.Reply(j).ReceiptIssued? || run.Reply(j).ChallengeIssued?)
    ensures run.Reply(j).minted.payload.Get("exp") == Int(run.At(j).now + Term(run, j))
  {
    if run.Reply(j).ReceiptIssued? {
      ReceiptTerm(run, j);
    } else {
      ReplyKind(run, j);
    }
  }

  // In every run an issued receipt, and an issued challenge, pass for a disclosure at every
  // later point of their term.
  lemma ReceiptsAndChallengesPass(run: Run, j: nat, i: nat)
    requires run.Valid() && j < i < |run.states| && (run.Reply(j).ReceiptIssued? || run.Reply(j).ChallengeIssued?)
    requires run.At(i).now <= run.At(j).now + Term(run, j)
    ensures var m := run.Reply(j).minted;
            VerifyDisclosure(run.env.c, run.At(i).log, JwsSign(run.env.c, m) + "~", run.At(i).now) == Ok(m.payload)
  {
    LogKeeps(run, j, i);
    MintedTerm(run, j);
    LoggedPassesTheCheck(run.env.c, run.At(i).log, run.Reply(j).minted, run.At(i).now);
  }
}

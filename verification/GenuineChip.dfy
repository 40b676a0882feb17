// What the chip_auth member of an issued receipt says of the chip.
module GenuineChip {
  import opened Prelude
  import opened Base64Url
  import opened BerTlv
  import opened Jose
  import ActiveAuth
  import opened Verification
  import opened Receipt
  import opened Server
  import opened Runs
  import opened Provenance

  // The key in DG15 verified this signature over the challenge the block names.
  ghost predicate ChipAnswered(lib: ActiveAuth.ChipLibrary, dg15: bytes, blk: AaBlock, key: ActiveAuth.ChipKey) {
    && Decode(blk.challenge).Some? && Decode(blk.signature).Some? && key.EcKey?
    && Unwrapped(0x6F, dg15).Ok? && lib.load(Unwrapped(0x6F, dg15).value) == Some(key)
    && var sig, size := Decode(blk.signature).value, (key.bits + 7) / 8;
       var read := if |sig| == 2 * size then ActiveAuth.Plain(BigEndian(sig[..size]), BigEndian(sig[size..]))
                   else ActiveAuth.Der(sig);
       exists h: ActiveAuth.HashAlg :: lib.verify(key, read, Decode(blk.challenge).value, h)
  }

  // A DG15 whose key Active Authentication can verify.
  predicate Checkable(lib: ActiveAuth.ChipLibrary, dg15: bytes) {
    Unwrapped(0x6F, dg15).Ok? && lib.load(Unwrapped(0x6F, dg15).value).Some?
      && lib.load(Unwrapped(0x6F, dg15).value).value.EcKey?
  }

  lemma VerdictSays(lib: ActiveAuth.ChipLibrary, dg15: bytes, blk: AaBlock) returns (key: ActiveAuth.ChipKey)
    requires Decode(blk.challenge).Some? && Decode(blk.signature).Some?
    requires ActiveAuth.Verdict(lib, dg15, Decode(blk.challenge).value, Decode(blk.signature).value).Ok?
    ensures var verdict := ActiveAuth.Verdict(lib, dg15, Decode(blk.challenge).value, Decode(blk.signature).value);
            && (verdict.value.Unsupported? <==> !Checkable(lib, dg15))
            && (verdict.value.Valid? ==> ChipAnswered(lib, dg15, blk, key))
  {
    key := ActiveAuth.OtherKey;
    if Checkable(lib, dg15) {
      key := lib.load(Unwrapped(0x6F, dg15).value).value;
    }
  }

  lemma ChipVerdict(env: Env, s: State, aa: Option<AaBlock>, groups: map<int, bytes>) returns (key: ActiveAuth.ChipKey)
    requires CheckActiveAuth(env, s, aa, groups).Ok?
    ensures CheckActiveAuth(env, s, aa, groups).value <==> 15 in groups && Checkable(env.chip, groups[15])
    ensures CheckActiveAuth(env, s, aa, groups).value ==> aa.Some? && ChipAnswered(env.chip, groups[15], aa.value, key)
    ensures 15 in groups && aa.Some? && aa.value.token != "" ==> CheckChallengeToken(env, s, aa.value).Ok?
  {
    key := ActiveAuth.OtherKey;
    if 15 in groups {
      key := VerdictSays(env.chip, groups[15], aa.value);
    }
  }

  // What the receipt of request j records of the chip.
  lemma RecordedChip(run: Run, j: nat) returns (verdict: bool)
    requires run.Steps() && j < |run.requests| && run.Reply(j).ReceiptIssued?
    ensures run.requests[j].Identity?
    ensures run.Reply(j).minted.payload.Get("doc").Get("chip_auth") == Bool(verdict)
    ensures var q := run.requests[j].identity; CheckActiveAuth(run.env, run.At(j), q.aa, q.doc.groups) == Ok(verdict)
  {
    var doc, bio, holder := IssuedFrom(run, j);
    var q, s, env := run.requests[j].identity, run.At(j), run.env;
    verdict := doc.chipAuth;
    ChipMember(env, s, q, doc, bio, holder, run.requests[j].salt, run.requests[j].jti);
    ExaminedChip(env, s, q);
  }

  lemma ChipMember(env: Env, s: State, q: IdentityRequest, doc: DocResult, bio: BioResult, holder: bytes,
                   salt: string -> Salt, jti: bytes)
    ensures IvrFor(env, s, q, doc, bio, holder, salt, jti).payload.Get("doc").Get("chip_auth") == Bool(doc.chipAuth)
  {
    DocMembers(doc);
    IvrMembers(env.c, env.cfg.measurement, env.cfg.ivrTtl, doc, bio, holder,
               Commitments(env.c, Committed(doc.fields, Portrait(q.doc.groups)), salt), jti, s.now);
  }

  lemma ExaminedChip(env: Env, s: State, q: IdentityRequest)
    requires Examine(env, s, q).Ok?
    ensures CheckActiveAuth(env, s, q.aa, q.doc.groups) == Ok(Examine(env, s, q).value.chipAuth)
  {}

  // An issued receipt records chip_auth exactly when the document carries a DG15 with a key
  // that can be checked; that key then verified the chip's signature over the challenge, and
  // a challenge presented with a token was issued by an earlier request of this run and is
  // still within its term.
  lemma ChipAuthMeansChipAnswered(run: Run, j: nat) returns (key: ActiveAuth.ChipKey, k: nat)
    requires run.Valid() && j < |run.requests| && run.Reply(j).ReceiptIssued?
    ensures run.requests[j].Identity?
    ensures var q, member := run.requests[j].identity, run.Reply(j).minted.payload.Get("doc").Get("chip_auth");
            && member == Bool(15 in q.doc.groups && Checkable(run.env.chip, q.doc.groups[15]))
            && (member == Bool(true) ==> q.aa.Some? && ChipAnswered(run.env.chip, q.doc.groups[15], q.aa.value, key))
            && (15 in q.doc.groups && q.aa.Some? && q.aa.value.token != "" ==>
                  && k < j && run.Reply(k).ChallengeIssued? && run.requests[k].Challenge?
                  && q.aa.value.challenge == Encode(run.requests[k].nonce)
                  && run.At(j).now <= run.At(k).now + run.env.cfg.challengeTtl)
  {
    var verdict := RecordedChip(run, j);
    var q, s := run.requests[j].identity, run.At(j);
    key := ChipVerdict(run.env, s, q.aa, q.doc.groups);
    k := 0;
    if 15 in q.doc.groups && q.aa.Some? && q.aa.value.token != "" {
      k := AcceptedChallengeWasIssued(run, j, q.aa.value);
    }
  }
}

// The attested digests: when the manager's leaf state agrees with the sealed volume.
module Published {
  import opened Prelude
  import opened Jose
  import opened Server
  import opened Runs
  import Wia

  // Whatever anchors are persisted, their digest is the published one.
  predicate AnchorsAttested(env: Env, s: State) {
    s.anchors != [] ==>
      && "1.3.6.1.4.1.65230.5.4.1" in s.published
      && s.published["1.3.6.1.4.1.65230.5.4.1"] == env.c.sha256(env.lib.pem(s.anchors))
  }

  predicate JwksAttested(env: Env, s: State) {
    s.jwks.Some? ==>
      && "1.3.6.1.4.1.65230.5.4.2" in s.published
      && s.published["1.3.6.1.4.1.65230.5.4.2"] == env.c.sha256(env.c.dumps(s.jwks.value))
  }

  // What is attested tells the bundles apart: one digest is published for one PEM text only.
  lemma AttestedBundle(env: Env, s: State, t: State)
    requires env.c.Sound() && AnchorsAttested(env, s) && AnchorsAttested(env, t) && s.anchors != [] && t.anchors != []
    requires s.published["1.3.6.1.4.1.65230.5.4.1"] == t.published["1.3.6.1.4.1.65230.5.4.1"]
    ensures env.lib.pem(s.anchors) == env.lib.pem(t.anchors)
  {}

  // Whatever happened before, a boot leaves the persisted anchors attested exactly when the
  // manager is available and takes their digest; the JWKS needs persisted anchors and both
  // calls besides.
  lemma BootAttests(env: Env, s: State, managerUp: bool, m: Manager)
    ensures var after := RestartStep(env, s, managerUp, m);
            && (AnchorsAttested(env, after) <==> s.anchors == [] || (managerUp && m.anchorOid))
            && (JwksAttested(env, after) <==>
                s.jwks.None? || (s.anchors != [] && managerUp && m.anchorOid && m.jwksOid))
            && (after.configured <==> s.anchors != [])
            && after.anchors == s.anchors && after.jwks == s.jwks && after.log == s.log
  {}

  // The new anchors of a configure call, when it replaces them.
  function NewAnchors(env: Env, binary: bool, ml: Option<bytes>): Option<seq<bytes>> {
    if ml.None? || (binary && ml.value == []) then None
    else
      match ExtractAnchors(env, ml.value)
      case Err(_) => None
      case Ok(anchors) => if env.loadable(anchors) then Some(anchors) else None
  }

  lemma InstallEffect(env: Env, s: State, ml: Option<bytes>, pushed: bool)
    ensures var after, new_ := InstallAnchors(env, s, ml, pushed).0, NewAnchors(env, false, ml);
            after == match new_
                     case None => s
                     case Some(anchors) =>
                       if s.managerUp && pushed
                       then s.(anchors := anchors,
                               published := s.published[TRUST_ANCHORS_OID := AnchorDigest(env, anchors)])
                       else s.(anchors := anchors)
  {}

  // Two states agree on the anchors and on their published digest.
  predicate SameAnchors(s: State, t: State) {
    && s.anchors == t.anchors && s.managerUp == t.managerUp
    && (TRUST_ANCHORS_OID in s.published <==> TRUST_ANCHORS_OID in t.published)
    && (TRUST_ANCHORS_OID in s.published ==> s.published[TRUST_ANCHORS_OID] == t.published[TRUST_ANCHORS_OID])
  }

  lemma JwksEffect(env: Env, s: State, jwks: Option<Json>, pushed: bool)
    ensures SameAnchors(InstallJwks(env, s, jwks, pushed).0, s)
  {}

  // What a configure call does to the anchors and their digest is done by their
  // installation, whatever the outcome of the rest.
  lemma ConfigureEffect(env: Env, s: State, binary: bool, ml: Option<bytes>, jwks: Option<Json>, m: Manager)
    ensures var after := ConfigureStep(env, s, binary, ml, jwks, m).0;
            if binary && (ml.None? || ml.value == []) then after == s
            else SameAnchors(after, InstallAnchors(env, s, ml, m.anchorOid).0)
  {
    var s1 := InstallAnchors(env, s, ml, m.anchorOid).0;
    JwksEffect(env, s1, if binary || jwks == Some(Null) then None else jwks, m.jwksOid);
  }

  // A configure call that replaces the anchors leaves them attested exactly when the push
  // reached the manager or the new digest was published already; any other configure call
  // leaves the agreement as it was.
  lemma ConfigureAttests(env: Env, s: State, binary: bool, ml: Option<bytes>, jwks: Option<Json>, m: Manager)
    ensures var after := ConfigureStep(env, s, binary, ml, jwks, m).0;
            match NewAnchors(env, binary, ml)
            case None => AnchorsAttested(env, after) <==> AnchorsAttested(env, s)
            case Some(anchors) =>
              && after.anchors == anchors
              && (AnchorsAttested(env, after) <==>
                    anchors == [] || (s.managerUp && m.anchorOid)
                    || (TRUST_ANCHORS_OID in s.published
                      && s.published[TRUST_ANCHORS_OID] == AnchorDigest(env, anchors)))
  {
    ConfigureEffect(env, s, binary, ml, jwks, m);
    InstallEffect(env, s, ml, m.anchorOid);
  }

  // The half-failed rotation: the new anchors are in force, the call answers 500, the
  // process stays unfrozen, and the attested digest is still the old one.
  lemma FailedPushLeavesStaleDigest(env: Env, s: State, binary: bool, ml: Option<bytes>, jwks: Option<Json>, m: Manager)
    requires s.configured && s.managerUp && !m.anchorOid
    requires NewAnchors(env, binary, ml).Some? && NewAnchors(env, binary, ml).value != []
    requires TRUST_ANCHORS_OID in s.published
             ==> s.published[TRUST_ANCHORS_OID] != AnchorDigest(env, NewAnchors(env, binary, ml).value)
    ensures var (after, reply) := ConfigureStep(env, s, binary, ml, jwks, m);
            reply == Refused(500) && after.configured && Some(after.anchors) == NewAnchors(env, binary, ml)
              && !AnchorsAttested(env, after)
  {
    InstallEffect(env, s, ml, m.anchorOid);
  }

  // No manager call of the request fails, and the manager is there.
  predicate ManagerHealthy(q: Request) {
    match q
    case Configure(_, _, _, m) => m.anchorOid
    case Restart(up, m) => up && m.anchorOid
    case _ => true
  }

  lemma StepAttests(env: Env, s: State, q: Request)
    requires ManagerHealthy(q) && s.managerUp && AnchorsAttested(env, s)
    ensures Step(env, s, q).0.managerUp && AnchorsAttested(env, Step(env, s, q).0)
  {
    match q
    case Configure(binary, ml, jwks, m) =>
      ConfigureAttests(env, s, binary, ml, jwks, m);
      ConfigureEffect(env, s, binary, ml, jwks, m);
    case Restart(up, m) => BootAttests(env, s, up, m);
    case _ =>
  }

  // Over a whole run in which the manager is available and takes every anchor digest, the
  // published digest is that of the persisted anchors before and after every request.
  lemma {:induction false} AlwaysAttested(run: Run, n: nat)
    requires run.Valid() && n < |run.states|
    requires run.At(0).managerUp && forall k :: 0 <= k < n ==> ManagerHealthy(run.requests[k])
    ensures run.At(n).managerUp && AnchorsAttested(run.env, run.At(n))
  {
    if n > 0 {
      AlwaysAttested(run, n - 1);
      assert run.Follows(n - 1);
      StepAttests(run.env, run.At(n - 1), run.requests[n - 1]);
    }
  }

  // And whatever the run before it, a boot that reaches the manager restores the agreement.
  lemma BootRestoresAttestation(run: Run, n: nat)
    requires run.Valid() && n < |run.requests|
    requires run.requests[n].Restart? && run.requests[n].managerUp && run.requests[n].manager.anchorOid
    ensures AnchorsAttested(run.env, run.At(n + 1))
    ensures run.At(n + 1).configured <==> run.At(n).anchors != []
  {
    assert run.Follows(n);
    BootAttests(run.env, run.At(n), run.requests[n].managerUp, run.requests[n].manager);
  }

  // ---- The persisted JWKS ----

  predicate JwksValidated(env: Env, s: State) {
    s.jwks.Some? ==> Wia.Validate(env.c, s.jwks.value).Ok?
  }

  lemma AnchorsKeepJwks(env: Env, s: State, ml: Option<bytes>, pushed: bool)
    ensures InstallAnchors(env, s, ml, pushed).0.jwks == s.jwks
  {}

  lemma JwksStaysValidated(env: Env, s: State, jwks: Option<Json>, pushed: bool)
    requires JwksValidated(env, s)
    ensures JwksValidated(env, InstallJwks(env, s, jwks, pushed).0)
  {}

  lemma ConfigureKeepsValidated(env: Env, s: State, binary: bool, ml: Option<bytes>, jwks: Option<Json>, m: Manager)
    requires JwksValidated(env, s)
    ensures JwksValidated(env, ConfigureStep(env, s, binary, ml, jwks, m).0)
  {
    AnchorsKeepJwks(env, s, ml, m.anchorOid);
    var wp := if binary || jwks == Some(Null) then None else jwks;
    JwksStaysValidated(env, InstallAnchors(env, s, ml, m.anchorOid).0, wp, m.jwksOid);
  }

  lemma StepKeepsValidated(env: Env, s: State, q: Request)
    requires JwksValidated(env, s)
    ensures JwksValidated(env, Step(env, s, q).0)
  {
    if q.Configure? {
      ConfigureKeepsValidated(env, s, q.binary, q.ml, q.jwks, q.manager);
    }
  }

  // In every run, whatever was pushed, rotated or restarted, the persisted JWKS is a
  // validated one,
  lemma {:induction false} PersistedJwksIsValidated(run: Run, n: nat)
    requires run.Valid() && n < |run.states|
    ensures JwksValidated(run.env, run.At(n))
  {
    if n > 0 {
      PersistedJwksIsValidated(run, n - 1);
      assert run.Follows(n - 1);
      StepKeepsValidated(run.env, run.At(n - 1), run.requests[n - 1]);
    }
  }

  // so with attestation required the gate opens at any moment exactly for a token in ES256
  // that attests the holder key under the JWKS then in force, and never while there is none.
  lemma AttestationGate(run: Run, n: nat, token: string, holderPub: bytes)
    requires run.Valid() && n < |run.states|
    ensures var s := run.At(n);
            Wia.Enforce(run.env.c, true, token, Wia.Keys(s.jwks), holderPub, s.now).Ok? <==>
            s.jwks.Some? && Wia.NamesES256(run.env.c, token)
              && Wia.Attests(run.env.c, token, Wia.Keys(s.jwks), holderPub, s.now)
  {
    var s := run.At(n);
    PersistedJwksIsValidated(run, n);
    GateOf(run.env.c, s.jwks, token, holderPub, s.now);
  }

  lemma GateOf(c: Primitives, jwks: Option<Json>, token: string, holderPub: bytes, now: int)
    requires c.Sound() && (jwks.Some? ==> Wia.Validate(c, jwks.value).Ok?)
    ensures Wia.Enforce(c, true, token, Wia.Keys(jwks), holderPub, now).Ok? <==>
            jwks.Some? && Wia.NamesES256(c, token) && Wia.Attests(c, token, Wia.Keys(jwks), holderPub, now)
  {
    Wia.RequiredMeansAttested(c, token, Wia.Keys(jwks), holderPub, now);
    if jwks.Some? {
      Wia.ValidatedJwksDecides(c, jwks.value, token, holderPub, now);
    }
    Wia.NamedTokenIsNotEmpty(c, token);
  }
}

// Passive Authentication (section 5.1 of ICAO Doc 9303 Part 11): the signature of EF.SOD,
// its Document Signer against the trusted CSCAs, and the data-group hashes.
module PassiveAuth {
  import opened Prelude
  import opened Text
  import opened BerTlv
  import opened Pki
  import Sorting

  const LDS_OID := "2.23.136.1.1.1"

  // ---- The chain to a CSCA ----

  function AkiRank(aki: Option<bytes>, c: Cert): int {
    if c.keyId == aki then 0 else 1
  }

  // The order of the candidates: matching key identifiers first.
  function AkiFirst(aki: Option<bytes>): (Cert, Cert) -> bool {
    (x, y) => AkiRank(aki, x) <= AkiRank(aki, y)
  }

  // aki is falsy when absent or empty.
  predicate HasAki(dsc: Cert) {
    dsc.authorityKeyId.Some? && dsc.authorityKeyId.value != []
  }

  function CandidateAnchors(dsc: Cert, anchors: seq<Cert>): seq<Cert> {
    var named := Filter((c: Cert) => c.subject == dsc.issuer, anchors);
    if HasAki(dsc) then Sorting.Sort(AkiFirst(dsc.authorityKeyId), named) else named
  }

  function FirstVerifying(lib: Library, dsc: Cert, candidates: seq<Cert>): Option<Cert> {
    if candidates == [] then None
    else if lib.issued(candidates[0], dsc) then Some(candidates[0])
    else FirstVerifying(lib, dsc, candidates[1..])
  }

  method VerifyDscChain(lib: Library, dsc: Cert, anchorDers: seq<bytes>) returns (r: Result<Cert>)
    ensures r == match FirstVerifying(lib, dsc, CandidateAnchors(dsc, Map(lib.parseCert, anchorDers)))
                 case None => Err(VerificationFault)
                 case Some(csca) => Ok(csca)
  {
    if anchorDers == [] { return Err(VerificationFault); }
    var anchors := Map(lib.parseCert, anchorDers);
    var candidates := Filter((c: Cert) => c.subject == dsc.issuer, anchors);
    if candidates == [] { return Err(VerificationFault); }
    if HasAki(dsc) {
      candidates := Sorting.Sort(AkiFirst(dsc.authorityKeyId), candidates);
    }
    r := FirstIssuer(lib, dsc, candidates);
  }

  method FirstIssuer(lib: Library, dsc: Cert, candidates: seq<Cert>) returns (r: Result<Cert>)
    ensures r == match FirstVerifying(lib, dsc, candidates)
                 case None => Err(VerificationFault)
                 case Some(csca) => Ok(csca)
  {
    for i := 0 to |candidates|
      invariant FirstVerifying(lib, dsc, candidates) == FirstVerifying(lib, dsc, candidates[i..])
    {
      if lib.issued(candidates[i], dsc) {
        return Ok(candidates[i]);
      }
      assert candidates[i..][1..] == candidates[i + 1..];
    }
    r := Err(VerificationFault);
  }

  lemma {:induction false} FirstVerifyingFinds(lib: Library, dsc: Cert, candidates: seq<Cert>)
    ensures match FirstVerifying(lib, dsc, candidates)
            case None => forall c :: c in candidates ==> !lib.issued(c, dsc)
            case Some(c) => c in candidates && lib.issued(c, dsc)
  {
    if candidates != [] {
      FirstVerifyingFinds(lib, dsc, candidates[1..]);
    }
  }

  lemma SortKeepsAnchors(dsc: Cert, anchors: seq<Cert>)
    ensures forall c :: c in CandidateAnchors(dsc, anchors) <==> c in anchors && c.subject == dsc.issuer
  {
    var named := Filter((c: Cert) => c.subject == dsc.issuer, anchors);
    Sorting.SameElements(named, Sorting.Sort(AkiFirst(dsc.authorityKeyId), named));
  }

  // A DSC is accepted exactly when some anchor named as its issuer verifies it: the order
  // of the anchors and the key identifiers do not decide acceptance.
  lemma AcceptedIffSomeAnchorVerifies(lib: Library, dsc: Cert, anchors: seq<Cert>)
    ensures FirstVerifying(lib, dsc, CandidateAnchors(dsc, anchors)).Some? <==>
            exists c :: c in anchors && c.subject == dsc.issuer && lib.issued(c, dsc)
    ensures FirstVerifying(lib, dsc, CandidateAnchors(dsc, anchors)).Some? ==>
              var csca := FirstVerifying(lib, dsc, CandidateAnchors(dsc, anchors)).value;
              csca in anchors && csca.subject == dsc.issuer && lib.issued(csca, dsc)
  {
    SortKeepsAnchors(dsc, anchors);
    FirstVerifyingFinds(lib, dsc, CandidateAnchors(dsc, anchors));
  }

  lemma AcceptanceIgnoresOrder(lib: Library, dsc: Cert, anchors: seq<Cert>, reordered: seq<Cert>)
    requires forall c :: c in anchors <==> c in reordered
    ensures FirstVerifying(lib, dsc, CandidateAnchors(dsc, anchors)).Some? <==>
            FirstVerifying(lib, dsc, CandidateAnchors(dsc, reordered)).Some?
  {
    AcceptedIffSomeAnchorVerifies(lib, dsc, anchors);
    AcceptedIffSomeAnchorVerifies(lib, dsc, reordered);
  }

  lemma {:induction false} FirstVerifyingIsFirst(lib: Library, dsc: Cert, candidates: seq<Cert>) returns (k: nat)
    requires FirstVerifying(lib, dsc, candidates).Some?
    ensures k < |candidates| && candidates[k] == FirstVerifying(lib, dsc, candidates).value
    ensures forall j :: 0 <= j < k ==> !lib.issued(candidates[j], dsc)
  {
    if lib.issued(candidates[0], dsc) {
      k := 0;
    } else {
      k := FirstVerifyingIsFirst(lib, dsc, candidates[1..]);
      k := k + 1;
    }
  }

  // The key identifier decides which anchor is returned: one it names, when one verifies.
  lemma AkiDecidesWhichAnchor(lib: Library, dsc: Cert, anchors: seq<Cert>, match_: Cert)
    requires HasAki(dsc)
    requires match_ in anchors && match_.subject == dsc.issuer && match_.keyId == dsc.authorityKeyId
    requires lib.issued(match_, dsc)
    ensures FirstVerifying(lib, dsc, CandidateAnchors(dsc, anchors)).Some?
    ensures FirstVerifying(lib, dsc, CandidateAnchors(dsc, anchors)).value.keyId == dsc.authorityKeyId
  {
    var aki, candidates := dsc.authorityKeyId, CandidateAnchors(dsc, anchors);
    AcceptedIffSomeAnchorVerifies(lib, dsc, anchors);
    SortKeepsAnchors(dsc, anchors);
    AkiOrderIsTotal(aki);
    Sorting.SortSorted(AkiFirst(aki), Filter((c: Cert) => c.subject == dsc.issuer, anchors));
    var k := FirstVerifyingIsFirst(lib, dsc, candidates);
    var m :| 0 <= m < |candidates| && candidates[m] == match_;
    assert k == m || AkiFirst(aki)(candidates[k], candidates[m]);
  }

  lemma AkiOrderIsTotal(aki: Option<bytes>)
    ensures Sorting.TotalPreorder(AkiFirst(aki))
  {}

  // ---- Signed attributes and validity ----

  // The last contentType attribute must be the LDS Security Object.
  function LastContentType(attrs: seq<Attr>): (t: Option<string>)
    ensures t.None? ==> forall k :: 0 <= k < |attrs| ==> !attrs[k].ContentType?
    ensures t.Some? ==> exists k :: 0 <= k < |attrs| && attrs[k] == ContentType(t.value)
                                    && forall j :: k < j < |attrs| ==> !attrs[j].ContentType?
  {
    if attrs == [] then None
    else
      match attrs[|attrs| - 1]
      case ContentType(oid) => Some(oid)
      case _ => LastContentType(attrs[..|attrs| - 1])
  }

  predicate DigestMatches(lib: Library, attrs: seq<Attr>, digestAlgo: string, content: bytes) {
    LastContentType(attrs) == Some(LDS_OID) && LastDigest(attrs).Some?
      && LastDigest(attrs) == lib.digest(digestAlgo, content)
  }

  method CheckMessageDigest(lib: Library, attrs: seq<Attr>, digestAlgo: string, content: bytes) returns (ok: bool)
    ensures ok <==> && LastContentType(attrs) == Some("2.23.136.1.1.1")
                    && LastDigest(attrs).Some? && LastDigest(attrs) == lib.digest(digestAlgo, content)
  {
    var md: Option<bytes> := None;
    var typeOk := false;
    for i := 0 to |attrs|
      invariant md == LastDigest(attrs[..i])
      invariant typeOk <==> LastContentType(attrs[..i]) == Some(LDS_OID)
    {
      assert attrs[..i + 1][..i] == attrs[..i];
      match attrs[i]
      case MessageDigest(d) => md := Some(d);
      case ContentType(oid) => typeOk := oid == LDS_OID;
      case _ =>
    }
    assert attrs[..|attrs|] == attrs;
    ok := typeOk && md.Some? && md == lib.digest(digestAlgo, content);
  }

  // The first signingTime attribute.
  function SigningTimeOf(attrs: seq<Attr>): (t: Option<int>)
    ensures t.None? ==> forall k :: 0 <= k < |attrs| ==> !attrs[k].SigningTime?
    ensures t.Some? ==> exists k :: 0 <= k < |attrs| && attrs[k] == SigningTime(t.value)
                                    && forall j :: 0 <= j < k ==> !attrs[j].SigningTime?
  {
    if attrs == [] then None
    else if attrs[0].SigningTime? then Some(attrs[0].time)
    else SigningTimeOf(attrs[1..])
  }

  predicate ValidAt(c: Cert, at: Option<int>) {
    c.notBefore <= c.notAfter && (at.Some? ==> c.notBefore <= at.value <= c.notAfter)
  }

  // ---- verify ----

  datatype PAResult = PAResult(hashAlgo: string, hashes: map<int, bytes>, country: string, signingTimeVerified: bool)

  // The signed LDS content of an EF.SOD and its signer, when the checks before the chain pass.
  function SignedSod(lib: Library, sod: bytes): Result<(Cert, SignerInfo, bytes)> {
    match Unwrapped(0x77, sod)
    case Err(_) => Err(VerificationFault)
    case Ok(inner) =>
      match lib.parseCms(inner)
      case None => Err(VerificationFault)
      case Some(cms) =>
        if !cms.isSignedData || cms.contentType != LDS_OID || cms.content.None? || |cms.signers| != 1 then
          Err(VerificationFault)
        else
          var signer, content := cms.signers[0], cms.content.value;
          match SignerCert(cms, signer)
          case None => Err(VerificationFault)
          case Some(dsc) =>
            if signer.attrs != [] && !DigestMatches(lib, signer.attrs, signer.digestAlgo, content) then
              Err(VerificationFault)
            else if !lib.signed(dsc, signer.digestAlgo, ToVerify(lib, signer, content), signer.signature) then
              Err(VerificationFault)
            else Ok((dsc, signer, content))
  }

  function Verify(lib: Library, sod: bytes, anchors: seq<bytes>): Result<PAResult> {
    var (dsc, signer, content) :- SignedSod(lib, sod);
    match FirstVerifying(lib, dsc, CandidateAnchors(dsc, Map(lib.parseCert, anchors)))
    case None => Err(VerificationFault)
    case Some(csca) =>
      var at := SigningTimeOf(signer.attrs);
      if !ValidAt(dsc, at) || !ValidAt(csca, at) then Err(VerificationFault)
      else
        match lib.parseLds(content)
        case None => Err(ValueFault)
        case Some(lds) =>
          if lds.hashes == map[] then Err(VerificationFault)
          else Ok(PAResult(lds.hashAlgo, lds.hashes, lib.country(dsc), at.Some?))
  }

  // check_data_group
  predicate GroupMatches(lib: Library, pa: PAResult, n: int, group: bytes) {
    n in pa.hashes && lib.digest(pa.hashAlgo, group) == Some(pa.hashes[n])
  }

  // ---- What a passed authentication rests on ----

  // The content of an EF.SOD is an LDS security object, its one signer's certificate is dsc,
  // the signed attributes, if there are any, end in the digest of exactly this content, and
  // the signature verifies.
  ghost predicate Signs(lib: Library, sod: bytes, dsc: Cert, signer: SignerInfo, content: bytes) {
    && Unwrapped(0x77, sod).Ok? && lib.parseCms(Unwrapped(0x77, sod).value).Some?
    && var cms := lib.parseCms(Unwrapped(0x77, sod).value).value;
    && cms.isSignedData && cms.contentType == "2.23.136.1.1.1" && cms.content == Some(content)
    && cms.signers == [signer] && SignerCert(cms, signer) == Some(dsc)
    && (signer.attrs != [] ==>
          && LastContentType(signer.attrs) == Some("2.23.136.1.1.1")
          && LastDigest(signer.attrs).Some? && LastDigest(signer.attrs) == lib.digest(signer.digestAlgo, content))
    && lib.signed(dsc, signer.digestAlgo, if signer.attrs == [] then content else lib.attrSet(signer.attrs),
                  signer.signature)
  }

  // An anchor carries the key identifier the DSC names, when it names one.
  predicate Named(dsc: Cert, anchor: Cert) {
    dsc.authorityKeyId.Some? && dsc.authorityKeyId.value != [] && anchor.keyId == dsc.authorityKeyId
  }

  // Anchor k issued the DSC, and of all anchors that did it comes first: those with the named
  // key identifier before the others, then in their order.
  ghost predicate Selects(lib: Library, dsc: Cert, anchors: seq<Cert>, k: nat) {
    && k < |anchors| && anchors[k].subject == dsc.issuer && lib.issued(anchors[k], dsc)
    && forall j :: 0 <= j < |anchors| && anchors[j].subject == dsc.issuer && lib.issued(anchors[j], dsc) ==>
         if Named(dsc, anchors[j]) then Named(dsc, anchors[k]) && k <= j else Named(dsc, anchors[k]) || k <= j
  }

  // A validity period that is not malformed and holds the signing time, when that is known.
  predicate Covers(cert: Cert, attrs: seq<Attr>) {
    && cert.notBefore <= cert.notAfter
    && (SigningTimeOf(attrs).Some? ==> cert.notBefore <= SigningTimeOf(attrs).value <= cert.notAfter)
  }

  ghost predicate AuthenticBy(lib: Library, sod: bytes, anchors: seq<bytes>, pa: PAResult, dsc: Cert,
                              signer: SignerInfo, content: bytes, k: nat)
    requires k < |anchors|
  {
    && Signs(lib, sod, dsc, signer, content) && Selects(lib, dsc, Map(lib.parseCert, anchors), k)
    && Covers(dsc, signer.attrs) && Covers(lib.parseCert(anchors[k]), signer.attrs)
    && (pa.signingTimeVerified <==> SigningTimeOf(signer.attrs).Some?) && pa.country == lib.country(dsc)
    && lib.parseLds(content) == Some(Lds(pa.hashAlgo, pa.hashes)) && pa.hashes != map[]
  }

  // A Document Signer signed these hashes, the first trusted anchor to verify it issued it,
  // and both were valid at the signing time when one is recorded.
  ghost predicate Authentic(lib: Library, sod: bytes, anchors: seq<bytes>, pa: PAResult) {
    exists dsc: Cert, signer: SignerInfo, content: bytes, k: nat ::
      k < |anchors| && AuthenticBy(lib, sod, anchors, pa, dsc, signer, content, k)
  }

  lemma SignedSodIs(lib: Library, sod: bytes, dsc: Cert, signer: SignerInfo, content: bytes)
    ensures SignedSod(lib, sod) == Ok((dsc, signer, content)) <==> Signs(lib, sod, dsc, signer, content)
  {}

  // ---- The anchor that is selected ----

  predicate Issued(lib: Library, dsc: Cert, anchor: Cert) {
    anchor.subject == dsc.issuer && lib.issued(anchor, dsc)
  }

  lemma InsertNamed(aki: Option<bytes>, x: Cert, s: seq<Cert>)
    requires x.keyId == aki
    ensures Sorting.Insert(AkiFirst(aki), x, s) == [x] + s
  {
    assert s != [] ==> AkiFirst(aki)(x, s[0]);
  }

  lemma {:induction false} InsertOther(aki: Option<bytes>, x: Cert, named: seq<Cert>, others: seq<Cert>)
    requires x.keyId != aki
    requires (forall c :: c in named ==> c.keyId == aki) && (forall c :: c in others ==> c.keyId != aki)
    ensures Sorting.Insert(AkiFirst(aki), x, named + others) == named + ([x] + others)
  {
    if named == [] {
      assert [] + others == others && [] + ([x] + others) == [x] + others;
      assert others != [] ==> others[0] in others && AkiFirst(aki)(x, others[0]);
    } else {
      var s := named + others;
      assert s[0] == named[0] && s[1..] == named[1..] + others && !AkiFirst(aki)(x, s[0]);
      InsertOther(aki, x, named[1..], others);
      assert named + ([x] + others) == [named[0]] + (named[1..] + ([x] + others));
    }
  }

  // The matching anchors come first, each group in its own order.
  lemma {:induction false} AkiSortPartitions(aki: Option<bytes>, byKey: Cert -> bool, byOther: Cert -> bool,
                                             s: seq<Cert>)
    requires forall c :: (byKey(c) <==> c.keyId == aki) && (byOther(c) <==> c.keyId != aki)
    ensures Sorting.Sort(AkiFirst(aki), s) == Filter(byKey, s) + Filter(byOther, s)
  {
    if s != [] {
      AkiSortPartitions(aki, byKey, byOther, s[1..]);
      var named, others := Filter(byKey, s[1..]), Filter(byOther, s[1..]);
      if s[0].keyId == aki {
        InsertNamed(aki, s[0], named + others);
        assert [s[0]] + (named + others) == [s[0]] + named + others;
      } else {
        InsertOther(aki, s[0], named, others);
      }
    }
  }

  lemma {:induction false} FirstOfConcat(lib: Library, dsc: Cert, s: seq<Cert>, t: seq<Cert>)
    ensures FirstVerifying(lib, dsc, s + t) ==
            if FirstVerifying(lib, dsc, s).Some? then FirstVerifying(lib, dsc, s) else FirstVerifying(lib, dsc, t)
  {
    if s != [] {
      assert (s + t)[0] == s[0] && (s + t)[1..] == s[1..] + t;
      FirstOfConcat(lib, dsc, s[1..], t);
    } else {
      assert s + t == t;
    }
  }

  // The first verifying one among those that pass a filter: where it stands, or the end.
  lemma {:induction false} FirstOfFilter(lib: Library, dsc: Cert, keep: Cert -> bool, s: seq<Cert>) returns (k: nat)
    ensures k <= |s| && forall j :: 0 <= j < k && keep(s[j]) ==> !lib.issued(s[j], dsc)
    ensures k < |s| ==> keep(s[k]) && lib.issued(s[k], dsc)
    ensures FirstVerifying(lib, dsc, Filter(keep, s)) == if k < |s| then Some(s[k]) else None
  {
    if s == [] || (keep(s[0]) && lib.issued(s[0], dsc)) {
      return 0;
    }
    k := FirstOfFilter(lib, dsc, keep, s[1..]);
    if keep(s[0]) {
      assert ([s[0]] + Filter(keep, s[1..]))[1..] == Filter(keep, s[1..]);
    }
    k := k + 1;
  }

  lemma SelectsOnce(lib: Library, dsc: Cert, anchors: seq<Cert>, k: nat, other: nat)
    requires Selects(lib, dsc, anchors, k) && Selects(lib, dsc, anchors, other)
    ensures k == other
  {}

  // Without a named key identifier the anchors keep their order.
  lemma SelectedUnnamed(lib: Library, dsc: Cert, anchors: seq<Cert>)
    requires !HasAki(dsc)
    ensures match FirstVerifying(lib, dsc, CandidateAnchors(dsc, anchors))
            case None => forall c :: c in anchors ==> !Issued(lib, dsc, c)
            case Some(c) => exists k :: 0 <= k < |anchors| && anchors[k] == c && Selects(lib, dsc, anchors, k)
  {
    var k := FirstOfFilter(lib, dsc, (c: Cert) => c.subject == dsc.issuer, anchors);
    if k < |anchors| {
      assert Selects(lib, dsc, anchors, k);
    }
  }

  // With one, the search goes through the matching anchors first.
  lemma NamedFirst(lib: Library, dsc: Cert, anchors: seq<Cert>, named: Cert -> bool, others: Cert -> bool)
    requires HasAki(dsc)
    requires forall c :: named(c) <==> c.subject == dsc.issuer && c.keyId == dsc.authorityKeyId
    requires forall c :: others(c) <==> c.subject == dsc.issuer && c.keyId != dsc.authorityKeyId
    ensures var first := FirstVerifying(lib, dsc, Filter(named, anchors));
            FirstVerifying(lib, dsc, CandidateAnchors(dsc, anchors)) ==
            if first.Some? then first else FirstVerifying(lib, dsc, Filter(others, anchors))
  {
    var aki := dsc.authorityKeyId;
    var bySubject := (c: Cert) => c.subject == dsc.issuer;
    var byKey, byOther := (c: Cert) => c.keyId == aki, (c: Cert) => c.keyId != aki;
    AkiSortPartitions(aki, byKey, byOther, Filter(bySubject, anchors));
    FilterTwice(bySubject, byKey, named, anchors);
    FilterTwice(bySubject, byOther, others, anchors);
    FirstOfConcat(lib, dsc, Filter(named, anchors), Filter(others, anchors));
  }

  lemma SelectedNamed(lib: Library, dsc: Cert, anchors: seq<Cert>)
    requires HasAki(dsc)
    ensures match FirstVerifying(lib, dsc, CandidateAnchors(dsc, anchors))
            case None => forall c :: c in anchors ==> !Issued(lib, dsc, c)
            case Some(c) => exists k :: 0 <= k < |anchors| && anchors[k] == c && Selects(lib, dsc, anchors, k)
  {
    var named := (c: Cert) => c.subject == dsc.issuer && c.keyId == dsc.authorityKeyId;
    var others := (c: Cert) => c.subject == dsc.issuer && c.keyId != dsc.authorityKeyId;
    NamedFirst(lib, dsc, anchors, named, others);
    var k := FirstOfFilter(lib, dsc, named, anchors);
    if k < |anchors| {
      assert Selects(lib, dsc, anchors, k);
    } else {
      SelectedOther(lib, dsc, anchors, others);
    }
  }

  lemma SelectedOther(lib: Library, dsc: Cert, anchors: seq<Cert>, others: Cert -> bool)
    requires HasAki(dsc) && forall c :: others(c) <==> c.subject == dsc.issuer && c.keyId != dsc.authorityKeyId
    requires forall j :: 0 <= j < |anchors| && Issued(lib, dsc, anchors[j]) ==> anchors[j].keyId != dsc.authorityKeyId
    ensures match FirstVerifying(lib, dsc, Filter(others, anchors))
            case None => forall c :: c in anchors ==> !Issued(lib, dsc, c)
            case Some(c) => exists k :: 0 <= k < |anchors| && anchors[k] == c && Selects(lib, dsc, anchors, k)
  {
    var k := FirstOfFilter(lib, dsc, others, anchors);
    if k < |anchors| {
      assert Selects(lib, dsc, anchors, k);
    }
  }

  lemma SelectedIs(lib: Library, dsc: Cert, anchors: seq<Cert>)
    ensures match FirstVerifying(lib, dsc, CandidateAnchors(dsc, anchors))
            case None => forall c :: c in anchors ==> !Issued(lib, dsc, c)
            case Some(c) => exists k :: 0 <= k < |anchors| && anchors[k] == c && Selects(lib, dsc, anchors, k)
  {
    if HasAki(dsc) {
      SelectedNamed(lib, dsc, anchors);
    } else {
      SelectedUnnamed(lib, dsc, anchors);
    }
  }

  lemma SelectedVerifies(lib: Library, dsc: Cert, anchors: seq<Cert>, k: nat)
    requires Selects(lib, dsc, anchors, k)
    ensures FirstVerifying(lib, dsc, CandidateAnchors(dsc, anchors)) == Some(anchors[k])
  {
    SelectedIs(lib, dsc, anchors);
    assert anchors[k] in anchors;
    var c := FirstVerifying(lib, dsc, CandidateAnchors(dsc, anchors)).value;
    var other :| 0 <= other < |anchors| && anchors[other] == c && Selects(lib, dsc, anchors, other);
    SelectsOnce(lib, dsc, anchors, k, other);
  }

  lemma VerifiedBy(lib: Library, sod: bytes, anchors: seq<bytes>, pa: PAResult)
    requires Verify(lib, sod, anchors) == Ok(pa)
    ensures Authentic(lib, sod, anchors, pa)
  {
    var parsed := Map(lib.parseCert, anchors);
    var (dsc, signer, content) := SignedSod(lib, sod).value;
    SignedSodIs(lib, sod, dsc, signer, content);
    SelectedIs(lib, dsc, parsed);
    var csca := FirstVerifying(lib, dsc, CandidateAnchors(dsc, parsed)).value;
    var k :| 0 <= k < |parsed| && parsed[k] == csca && Selects(lib, dsc, parsed, k);
    assert AuthenticBy(lib, sod, anchors, pa, dsc, signer, content, k);
  }

  lemma AuthenticVerifies(lib: Library, sod: bytes, anchors: seq<bytes>, pa: PAResult, dsc: Cert, signer: SignerInfo,
                          content: bytes, k: nat)
    requires k < |anchors| && AuthenticBy(lib, sod, anchors, pa, dsc, signer, content, k)
    ensures Verify(lib, sod, anchors) == Ok(pa)
  {
    SignedSodIs(lib, sod, dsc, signer, content);
    SelectedVerifies(lib, dsc, Map(lib.parseCert, anchors), k);
  }

  // Passive Authentication returns a result exactly for what is authentic. It checks the
  // validity of the anchor that comes first, and tries no other.
  lemma VerifiedIsAuthentic(lib: Library, sod: bytes, anchors: seq<bytes>, pa: PAResult)
    ensures Verify(lib, sod, anchors) == Ok(pa) <==> Authentic(lib, sod, anchors, pa)
  {
    if Verify(lib, sod, anchors) == Ok(pa) {
      VerifiedBy(lib, sod, anchors, pa);
    }
    if Authentic(lib, sod, anchors, pa) {
      var dsc, signer, content, k: nat :| k < |anchors| && AuthenticBy(lib, sod, anchors, pa, dsc, signer, content, k);
      AuthenticVerifies(lib, sod, anchors, pa, dsc, signer, content, k);
    }
  }
}

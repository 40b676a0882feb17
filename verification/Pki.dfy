// Certificates and CMS SignedData as the chain checks see them. Parsing and signature
// verification are library code, given as the fields of Pki.
module Pki {
  import opened Prelude

  datatype Cert = Cert(der: bytes, serial: int, subject: string, issuer: string,
                       keyId: Option<bytes>, authorityKeyId: Option<bytes>, notBefore: int, notAfter: int)

  datatype Attr = MessageDigest(digest: bytes) | ContentType(oid: string) | SigningTime(time: int) | OtherAttr

  datatype SignerId = BySerial(serial: int) | ByKeyId(keyId: bytes)

  datatype SignerInfo = SignerInfo(sid: SignerId, digestAlgo: string, attrs: seq<Attr>, signature: bytes)

  // content is None when the eContent is missing.
  datatype Cms = Cms(isSignedData: bool, contentType: string, content: Option<bytes>, signers: seq<SignerInfo>,
                     certs: seq<Cert>)

  // The LDS Security Object: a hash algorithm and the hash of each data group.
  datatype Lds = Lds(hashAlgo: string, hashes: map<int, bytes>)

  datatype Library = Library(
    parseCms: bytes -> Option<Cms>,
    parseCert: bytes -> Cert,
    parseList: bytes -> Option<seq<Cert>>,
    parseLds: bytes -> Option<Lds>,
    pem: seq<bytes> -> bytes,
    country: Cert -> string,
    attrSet: seq<Attr> -> bytes,
    digest: (string, bytes) -> Option<bytes>,
    issued: (Cert, Cert) -> bool,
    signed: (Cert, string, bytes, bytes) -> bool)

  // A serial number or a key identifier names the certificates that carry it.
  predicate Names(sid: SignerId, cert: Cert) {
    match sid
    case BySerial(n) => cert.serial == n
    case ByKeyId(k) => cert.keyId == Some(k)
  }

  // _signer_cert: the first certificate the signer identifier names, else the first of all.
  function SignerCert(cms: Cms, signer: SignerInfo): Option<Cert> {
    if cms.certs == [] then None
    else
      match FirstNamed(cms.certs, signer.sid)
      case Some(c) => Some(c)
      case None => Some(cms.certs[0])
  }

  function FirstNamed(certs: seq<Cert>, sid: SignerId): Option<Cert> {
    if certs == [] then None
    else if Names(sid, certs[0]) then Some(certs[0])
    else FirstNamed(certs[1..], sid)
  }

  // The certificate at k is the signer's: the first that carries its serial number or its key
  // identifier, or the first of all when none does.
  ghost predicate IsSignerAt(certs: seq<Cert>, sid: SignerId, k: nat)
    requires k < |certs|
  {
    match sid
    case BySerial(n) =>
      && (forall j :: 0 <= j < k ==> certs[j].serial != n)
      && (certs[k].serial == n || (k == 0 && forall c :: c in certs ==> c.serial != n))
    case ByKeyId(id) =>
      && (forall j :: 0 <= j < k ==> certs[j].keyId != Some(id))
      && (certs[k].keyId == Some(id) || (k == 0 && forall c :: c in certs ==> c.keyId != Some(id)))
  }

  lemma {:induction false} FirstNamedIs(certs: seq<Cert>, sid: SignerId)
    ensures match FirstNamed(certs, sid)
            case None => forall c :: c in certs ==> !Names(sid, c)
            case Some(c) => exists k :: 0 <= k < |certs| && certs[k] == c && Names(sid, c)
                                        && forall j :: 0 <= j < k ==> !Names(sid, certs[j])
  {
    if certs != [] && !Names(sid, certs[0]) {
      FirstNamedIs(certs[1..], sid);
      if c :| FirstNamed(certs[1..], sid) == Some(c) {
        var k :| 0 <= k < |certs[1..]| && certs[1..][k] == c && Names(sid, c)
          && forall j :: 0 <= j < k ==> !Names(sid, certs[1..][j]);
        assert certs[k + 1] == c;
        forall j | 0 <= j < k + 1 ensures !Names(sid, certs[j]) {
          assert j > 0 ==> certs[j] == certs[1..][j - 1];
        }
      } else {
        assert certs == [certs[0]] + certs[1..];
      }
    }
  }

  lemma SignerCertIs(cms: Cms, signer: SignerInfo)
    ensures SignerCert(cms, signer).None? <==> cms.certs == []
    ensures cms.certs != [] ==>
              exists k :: 0 <= k < |cms.certs| && IsSignerAt(cms.certs, signer.sid, k)
                          && SignerCert(cms, signer) == Some(cms.certs[k])
  {
    FirstNamedIs(cms.certs, signer.sid);
    if cms.certs != [] && FirstNamed(cms.certs, signer.sid).None? {
      assert cms.certs[0] in cms.certs;
      assert IsSignerAt(cms.certs, signer.sid, 0);
    } else if cms.certs != [] {
      var k :| 0 <= k < |cms.certs| && Some(cms.certs[k]) == FirstNamed(cms.certs, signer.sid)
        && Names(signer.sid, cms.certs[k])
        && forall j :: 0 <= j < k ==> !Names(signer.sid, cms.certs[j]);
      assert IsSignerAt(cms.certs, signer.sid, k);
    }
  }

  // The last messageDigest attribute, as the loops over the attributes find it.
  function LastDigest(attrs: seq<Attr>): (d: Option<bytes>)
    ensures d.None? ==> forall k :: 0 <= k < |attrs| ==> !attrs[k].MessageDigest?
    ensures d.Some? ==> exists k :: 0 <= k < |attrs| && attrs[k] == MessageDigest(d.value)
                                    && forall j :: k < j < |attrs| ==> !attrs[j].MessageDigest?
  {
    if attrs == [] then None
    else
      match attrs[|attrs| - 1]
      case MessageDigest(d) => Some(d)
      case _ => LastDigest(attrs[..|attrs| - 1])
  }

  // The bytes the signature covers: the SET OF signed attributes, or the content itself.
  function ToVerify(lib: Library, signer: SignerInfo, content: bytes): bytes {
    if signer.attrs != [] then lib.attrSet(signer.attrs) else content
  }
}

// The CSCA master list (ICAO Doc 9303 Part 12): the climb from its signer to the pinned
// root, and the extraction of its certificates.
module MasterList {
  import opened Prelude
  import opened Text
  import opened Pki

  const LIST_OID := "2.23.136.1.1.2"

  // What the climb is decided against: the certificates of the list, the hash and the pin.
  datatype Trust = Trust(lib: Library, certs: seq<Cert>, sha256: bytes -> bytes, pin: bytes)

  // ---- The climb ----

  // ca certifies cert: the names match and the signature verifies.
  predicate Certifies(t: Trust, ca: Cert, cert: Cert) {
    ca.subject == cert.issuer && t.lib.issued(ca, cert)
  }

  // No certificate in this range of the list names and verifies as the issuer of cert.
  predicate NoneBefore(t: Trust, cert: Cert, from: nat, to: nat)
    requires from <= to <= |t.certs|
  {
    forall k :: from <= k < to ==> !(t.certs[k].subject == cert.issuer && t.lib.issued(t.certs[k], cert))
  }

  // The first certificate of the list that certifies cert.
  function FirstIssuer(t: Trust, cert: Cert, from: nat): (ca: Option<Cert>)
    requires from <= |t.certs|
    ensures ca.Some? ==> ca.value in t.certs && ca.value.subject == cert.issuer && t.lib.issued(ca.value, cert)
    ensures ca.Some? ==> exists k :: from <= k < |t.certs| && t.certs[k] == ca.value && NoneBefore(t, cert, from, k)
    ensures ca.None? ==> NoneBefore(t, cert, from, |t.certs|)
    decreases |t.certs| - from
  {
    if from == |t.certs| then None
    else if Certifies(t, t.certs[from], cert) then Some(t.certs[from])
    else FirstIssuer(t, cert, from + 1)
  }

  predicate SelfIssued(c: Cert) {
    c.subject == c.issuer
  }

  predicate IsPinnedRoot(t: Trust, c: Cert) {
    SelfIssued(c) && t.sha256(c.der) == t.pin
  }

  // The recursion has no set of visited certificates; depth is the recursion the
  // interpreter allows, and TooDeep its RecursionError.
  datatype Outcome = Reached | Refused | TooDeep

  function Climb(t: Trust, signer: Cert, depth: nat): Outcome
    decreases depth
  {
    if depth == 0 then TooDeep
    else
      match FirstIssuer(t, signer, 0)
      case None => Refused
      case Some(ca) =>
        if SelfIssued(ca) then (if IsPinnedRoot(t, ca) then Reached else Refused)
        else Climb(t, ca, depth - 1)
  }

  // The certificates met on the way up, the signer first.
  ghost predicate IsChain(t: Trust, chain: seq<Cert>) {
    && chain != []
    && (forall i :: 0 < i < |chain| ==>
          chain[i] in t.certs && chain[i].subject == chain[i - 1].issuer && t.lib.issued(chain[i], chain[i - 1]))
  }

  ghost predicate ReachesRoot(t: Trust, signer: Cert, chain: seq<Cert>) {
    && IsChain(t, chain) && |chain| >= 2
    && chain[0] == signer
    && chain[|chain| - 1].subject == chain[|chain| - 1].issuer && t.sha256(chain[|chain| - 1].der) == t.pin
    && (forall i :: 0 < i < |chain| - 1 ==> chain[i].subject != chain[i].issuer)
  }

  // One more level of recursion never changes an answer.
  lemma {:induction false} MoreDepth(t: Trust, signer: Cert, depth: nat, more: nat)
    requires Climb(t, signer, depth) != TooDeep && depth <= more
    ensures Climb(t, signer, more) == Climb(t, signer, depth)
    decreases depth
  {
    var ca := FirstIssuer(t, signer, 0);
    if ca.Some? && !SelfIssued(ca.value) {
      MoreDepth(t, ca.value, depth - 1, more - 1);
    }
  }

  // The climb is decided with this depth and with no less.
  ghost predicate Exact(t: Trust, c: Cert, depth: nat) {
    depth > 0 && Climb(t, c, depth) != TooDeep && Climb(t, c, depth - 1) == TooDeep
  }

  lemma ExactIsUnique(t: Trust, c: Cert, depth: nat, other: nat)
    requires Exact(t, c, depth) && Exact(t, c, other)
    ensures depth == other
  {
    if depth < other {
      MoreDepth(t, c, depth, other - 1);
    } else if other < depth {
      MoreDepth(t, c, other, depth - 1);
    }
  }

  lemma {:induction false} SomeDepthIsExact(t: Trust, c: Cert, depth: nat) returns (exact: nat)
    requires Climb(t, c, depth) != TooDeep
    ensures exact <= depth && Exact(t, c, exact)
    decreases depth
  {
    if Climb(t, c, depth - 1) == TooDeep {
      exact := depth;
    } else {
      exact := SomeDepthIsExact(t, c, depth - 1);
    }
  }

  // The path a decided climb takes: at step i the remaining climb needs i levels fewer.
  ghost predicate IsPath(t: Trust, path: seq<Cert>, depth: nat) {
    && IsChain(t, path) && |path| == depth
    && (forall i :: 0 < i < depth ==> FirstIssuer(t, path[i - 1], 0) == Some(path[i]))
    && (forall i :: 0 <= i < depth ==>
          Exact(t, path[i], depth - i) && Climb(t, path[i], depth - i) == Climb(t, path[0], depth))
  }

  lemma {:induction false} PathOf(t: Trust, c: Cert, depth: nat) returns (path: seq<Cert>)
    requires Exact(t, c, depth)
    ensures IsPath(t, path, depth) && path[0] == c
    decreases depth
  {
    if depth == 1 {
      path := [c];
    } else {
      var ca := FirstIssuer(t, c, 0).value;
      var above := PathOf(t, ca, depth - 1);
      path := [c] + above;
      forall i | 0 < i < depth
        ensures FirstIssuer(t, path[i - 1], 0) == Some(path[i])
        ensures Exact(t, path[i], depth - i) && Climb(t, path[i], depth - i) == Climb(t, c, depth)
      {
        assert path[i] == above[i - 1] && (i > 1 ==> path[i - 1] == above[i - 2]);
      }
    }
  }

  // No certificate repeats on the path of a decided climb.
  lemma PathNeverRepeats(t: Trust, path: seq<Cert>, depth: nat)
    requires IsPath(t, path, depth)
    ensures forall i, j :: 0 <= i < j < depth ==> path[i] != path[j]
  {
    forall i, j | 0 <= i < j < depth ensures path[i] != path[j] {
      if path[i] == path[j] {
        ExactIsUnique(t, path[i], depth - i, depth - j);
      }
    }
  }

  // Distinct certificates drawn from the list are at most as many as the list is long.
  lemma {:induction false} Pigeonhole(distinct: seq<Cert>, pool: seq<Cert>)
    requires forall i, j :: 0 <= i < j < |distinct| ==> distinct[i] != distinct[j]
    requires forall c :: c in distinct ==> c in pool
    ensures |distinct| <= |pool|
  {
    if distinct != [] {
      var c := distinct[0];
      assert c in distinct;
      var k :| 0 <= k < |pool| && pool[k] == c;
      var rest := pool[..k] + pool[k + 1..];
      forall d | d in distinct[1..] ensures d in rest {
        assert d in distinct;
        var m :| 0 <= m < |pool| && pool[m] == d;
        assert m != k;
        assert m < k ==> rest[m] == d;
        assert m > k ==> rest[m - 1] == d;
      }
      Pigeonhole(distinct[1..], rest);
    }
  }

  // A climb that ends at any depth ends within |certs| + 1 levels, so that depth decides it.
  lemma DepthDecides(t: Trust, signer: Cert, depth: nat)
    requires Climb(t, signer, depth) != TooDeep
    ensures Climb(t, signer, |t.certs| + 1) == Climb(t, signer, depth)
  {
    var exact := SomeDepthIsExact(t, signer, depth);
    var path := PathOf(t, signer, exact);
    PathNeverRepeats(t, path, exact);
    Pigeonhole(path[1..], t.certs);
    MoreDepth(t, signer, exact, depth);
    MoreDepth(t, signer, exact, |t.certs| + 1);
  }

  // A self-issued certificate is never climbed through.
  lemma RootEndsTheClimb(t: Trust, path: seq<Cert>, depth: nat, i: nat)
    requires IsPath(t, path, depth) && 0 < i < depth
    ensures !SelfIssued(path[i])
  {
    assert Exact(t, path[i - 1], depth - i + 1);
    assert Climb(t, path[i - 1], depth - i) == TooDeep;
  }

  // A climb that returns has found a chain of verified links from the signer to the pinned
  // self-issued root, with no certificate of the list met twice.
  lemma ReachedMeansChain(t: Trust, signer: Cert, depth: nat) returns (chain: seq<Cert>)
    requires Climb(t, signer, depth) == Reached
    ensures ReachesRoot(t, signer, chain)
    ensures forall i, j :: 0 < i < j < |chain| ==> chain[i] != chain[j]
    ensures |chain| <= |t.certs| + 1
  {
    var exact := SomeDepthIsExact(t, signer, depth);
    MoreDepth(t, signer, exact, depth);
    var path := PathOf(t, signer, exact);
    PathNeverRepeats(t, path, exact);
    var root := RootAbove(t, path, exact);
    chain := path + [root];
    RootIsNew(t, path, exact, root);
    RootEndsChain(t, path, root);
  }

  lemma RootEndsChain(t: Trust, path: seq<Cert>, root: Cert)
    requires IsChain(t, path) && root in t.certs && root.subject == path[|path| - 1].issuer
    requires t.lib.issued(root, path[|path| - 1]) && root.subject == root.issuer && t.sha256(root.der) == t.pin
    requires forall i :: 0 < i < |path| ==> path[i].subject != path[i].issuer && path[i] != root
    requires forall i, j :: 0 <= i < j < |path| ==> path[i] != path[j]
    ensures ReachesRoot(t, path[0], path + [root])
    ensures forall i, j :: 0 < i < j < |path| + 1 ==> (path + [root])[i] != (path + [root])[j]
    ensures |path + [root]| <= |t.certs| + 1
  {
    var chain := path + [root];
    forall i | 0 < i < |chain|
      ensures chain[i] in t.certs && chain[i].subject == chain[i - 1].issuer && t.lib.issued(chain[i], chain[i - 1])
    {
      if i < |path| {
        assert chain[i] == path[i] && chain[i - 1] == path[i - 1];
      }
    }
    Pigeonhole(chain[1..], t.certs);
  }

  // Above a path that reaches stands the pinned root.
  lemma RootAbove(t: Trust, path: seq<Cert>, depth: nat) returns (root: Cert)
    requires IsPath(t, path, depth) && depth > 0 && Climb(t, path[0], depth) == Reached
    ensures root in t.certs && root.subject == path[depth - 1].issuer && t.lib.issued(root, path[depth - 1])
    ensures root.subject == root.issuer && t.sha256(root.der) == t.pin
  {
    var top := path[depth - 1];
    assert Exact(t, top, 1) && Climb(t, top, 1) == Reached;
    root := FirstIssuer(t, top, 0).value;
  }

  lemma RootIsNew(t: Trust, path: seq<Cert>, depth: nat, root: Cert)
    requires IsPath(t, path, depth) && root.subject == root.issuer
    ensures forall i :: 0 < i < depth ==> path[i].subject != path[i].issuer && path[i] != root
  {
    forall i | 0 < i < depth ensures path[i].subject != path[i].issuer && path[i] != root {
      RootEndsTheClimb(t, path, depth, i);
    }
  }

  // ---- When the climb succeeds, and when it never ends ----

  // The links the climb follows: each certificate above the signer is the first of the list
  // that certifies the one below it.
  ghost predicate Greedy(t: Trust, path: seq<Cert>) {
    && path != []
    && forall i :: 0 < i < |path| ==> FirstIssuer(t, path[i - 1], 0) == Some(path[i])
  }

  ghost predicate GreedyReachesRoot(t: Trust, signer: Cert, chain: seq<Cert>) {
    ReachesRoot(t, signer, chain) && Greedy(t, chain)
  }

  lemma {:induction false} GreedyChainClimbs(t: Trust, chain: seq<Cert>)
    requires chain != [] && GreedyReachesRoot(t, chain[0], chain)
    ensures Climb(t, chain[0], |chain| - 1) == Reached
    decreases |chain|
  {
    assert FirstIssuer(t, chain[0], 0) == Some(chain[1]);
    if |chain| > 2 {
      GreedyChainClimbs(t, chain[1..]);
    }
  }

  lemma {:induction false} ClimbedGreedily(t: Trust, signer: Cert, depth: nat) returns (chain: seq<Cert>)
    requires Climb(t, signer, depth) == Reached
    ensures GreedyReachesRoot(t, signer, chain)
    decreases depth
  {
    var ca := FirstIssuer(t, signer, 0).value;
    if SelfIssued(ca) {
      chain := [signer, ca];
    } else {
      var above := ClimbedGreedily(t, ca, depth - 1);
      chain := [signer] + above;
      forall i | 0 < i < |chain|
        ensures FirstIssuer(t, chain[i - 1], 0) == Some(chain[i])
        ensures i < |chain| - 1 ==> !SelfIssued(chain[i])
      {
        assert chain[i] == above[i - 1] && (i > 1 ==> chain[i - 1] == above[i - 2]);
      }
    }
  }

  // The climb takes the first certifier it finds and never comes back to try another: it
  // succeeds exactly when the chain of first certifiers ends in the pinned root.
  lemma ClimbSucceedsExactly(t: Trust, signer: Cert)
    ensures Climb(t, signer, |t.certs| + 1) == Reached <==> exists chain :: GreedyReachesRoot(t, signer, chain)
  {
    if Climb(t, signer, |t.certs| + 1) == Reached {
      var chain := ClimbedGreedily(t, signer, |t.certs| + 1);
    }
    if chain :| GreedyReachesRoot(t, signer, chain) {
      GreedyChainClimbs(t, chain);
      DepthDecides(t, signer, |chain| - 1);
    }
  }

  // The links the climb follows lead back to a certificate already met.
  ghost predicate Loops(t: Trust, signer: Cert, path: seq<Cert>) {
    && Greedy(t, path) && path[0] == signer && Climbable(path)
    && exists i :: 0 <= i < |path| - 1 && path[i] == path[|path| - 1]
  }

  // Nothing above the signer is self-issued, so nothing ends the climb.
  ghost predicate Climbable(path: seq<Cert>) {
    forall i :: 0 < i < |path| ==> path[i].subject != path[i].issuer
  }

  lemma {:induction false} DeepPath(t: Trust, signer: Cert, depth: nat) returns (path: seq<Cert>)
    requires Climb(t, signer, depth) == TooDeep
    ensures |path| == depth + 1 && path[0] == signer && Greedy(t, path) && Climbable(path)
    decreases depth
  {
    path := [signer];
    if depth > 0 {
      var above := DeepPath(t, FirstIssuer(t, signer, 0).value, depth - 1);
      path := [signer] + above;
      forall i | 0 < i < |path|
        ensures FirstIssuer(t, path[i - 1], 0) == Some(path[i]) && !SelfIssued(path[i])
      {
        assert path[i] == above[i - 1] && (i > 1 ==> path[i - 1] == above[i - 2]);
      }
    }
  }

  // Following one link leaves exactly one level fewer to climb.
  lemma ExactAbove(t: Trust, c: Cert, ca: Cert, depth: nat)
    requires Exact(t, c, depth) && FirstIssuer(t, c, 0) == Some(ca) && !SelfIssued(ca)
    ensures depth > 1 && Exact(t, ca, depth - 1)
  {
    assert Climb(t, c, depth) == Climb(t, ca, depth - 1);
  }

  lemma {:induction false} ExactAlong(t: Trust, path: seq<Cert>, depth: nat, i: nat)
    requires Greedy(t, path) && Climbable(path) && Exact(t, path[0], depth) && i < |path|
    ensures depth > i && Exact(t, path[i], depth - i)
  {
    if i > 0 {
      ExactAlong(t, path, depth, i - 1);
      ExactAbove(t, path[i - 1], path[i], depth - (i - 1));
    }
  }

  lemma LoopNeverEnds(t: Trust, signer: Cert, path: seq<Cert>, depth: nat)
    requires Loops(t, signer, path)
    ensures Climb(t, signer, depth) == TooDeep
  {
    if Climb(t, signer, depth) != TooDeep {
      var exact := SomeDepthIsExact(t, signer, depth);
      var last := |path| - 1;
      var i :| 0 <= i < last && path[i] == path[last];
      ExactAlong(t, path, exact, i);
      ExactAlong(t, path, exact, last);
      ExactIsUnique(t, path[i], exact - i, exact - last);
    }
  }

  // The climb never ends, at any depth, exactly when its links come back to a certificate
  // already met; one level more than there are certificates decides that too.
  lemma ClimbNeverEndsExactly(t: Trust, signer: Cert)
    ensures (forall depth: nat :: Climb(t, signer, depth) == TooDeep) <==> exists path :: Loops(t, signer, path)
    ensures Climb(t, signer, |t.certs| + 1) == TooDeep <==> exists path :: Loops(t, signer, path)
  {
    var enough := |t.certs| + 1;
    if Climb(t, signer, enough) == TooDeep {
      var path := DeepPath(t, signer, enough);
      var loop := FirstRepetition(t, path);
      forall depth: nat ensures Climb(t, signer, depth) == TooDeep {
        LoopNeverEnds(t, signer, loop, depth);
      }
      assert Loops(t, signer, loop);
    } else {
      forall path ensures !Loops(t, signer, path) {
        if Loops(t, signer, path) {
          LoopNeverEnds(t, signer, path, enough);
        }
      }
    }
  }

  // More links than certificates: some certificate comes twice.
  lemma FirstRepetition(t: Trust, path: seq<Cert>) returns (loop: seq<Cert>)
    requires |path| == |t.certs| + 2 && Greedy(t, path) && Climbable(path)
    ensures Loops(t, path[0], loop)
  {
    if forall i, j :: 0 <= i < j < |path[1..]| ==> path[1..][i] != path[1..][j] {
      forall c | c in path[1..] ensures c in t.certs {
        var k :| 0 <= k < |path[1..]| && path[1..][k] == c;
        assert FirstIssuer(t, path[k], 0) == Some(path[k + 1]);
      }
      Pigeonhole(path[1..], t.certs);
      assert false;
    }
    var i, j :| 0 <= i < j < |path[1..]| && path[1..][i] == path[1..][j];
    loop := path[..j + 2];
    assert loop[i + 1] == loop[|loop| - 1];
  }

  // Two certificates that certify each other first are the smallest loop.
  lemma CrossSignedNeverEnds(t: Trust, a: Cert, b: Cert, depth: nat)
    requires FirstIssuer(t, a, 0) == Some(b) && FirstIssuer(t, b, 0) == Some(a)
    requires !SelfIssued(a) && !SelfIssued(b)
    ensures Climb(t, a, depth) == TooDeep
  {
    var path := [a, b, a];
    assert path[0] == path[2];
    assert Loops(t, a, path);
    LoopNeverEnds(t, a, path, depth);
  }

  // ---- A chain the climb misses ----

  // The signer and each certificate of the list have at most one certifier in the list.
  ghost predicate UniqueIssuers(t: Trust, signer: Cert) {
    forall c, a, b :: (c == signer || c in t.certs) && a in t.certs && b in t.certs ==>
      Certifies(t, a, c) && Certifies(t, b, c) ==> a == b
  }

  // When certifiers are unique every chain is the one the climb follows, so nothing is missed.
  lemma ClimbIsComplete(t: Trust, signer: Cert)
    requires UniqueIssuers(t, signer)
    ensures Climb(t, signer, |t.certs| + 1) == Reached <==> exists chain :: ReachesRoot(t, signer, chain)
  {
    ClimbSucceedsExactly(t, signer);
    if chain :| ReachesRoot(t, signer, chain) {
      forall i | 0 < i < |chain| ensures FirstIssuer(t, chain[i - 1], 0) == Some(chain[i]) {
        assert i > 1 ==> chain[i - 1] in t.certs;
        assert chain[i] in t.certs && Certifies(t, chain[i], chain[i - 1]);
      }
      assert GreedyReachesRoot(t, signer, chain);
    }
  }

  // A renewed root of the same name and key, listed before the pinned one: the signer chains
  // to the pinned root, and the climb refuses the list.
  lemma RenewedRootHidesThePinned(t: Trust, signer: Cert, renewed: Cert, root: Cert, depth: nat)
    requires t.certs == [renewed, root] && depth > 0
    requires Certifies(t, renewed, signer) && Certifies(t, root, signer)
    requires SelfIssued(renewed) && !IsPinnedRoot(t, renewed) && IsPinnedRoot(t, root)
    ensures ReachesRoot(t, signer, [signer, root]) && Climb(t, signer, depth) == Refused
  {
    assert t.certs[1] == root;
  }

  // Such a list, with its certificates written out.
  lemma SomeChainIsMissed() returns (t: Trust, signer: Cert)
    ensures exists chain :: ReachesRoot(t, signer, chain)
    ensures forall depth: nat :: depth > 0 ==> Climb(t, signer, depth) == Refused
  {
    var renewed := Cert([1], 1, "CSCA", "CSCA", None, None, 0, 0);
    var root := Cert([2], 2, "CSCA", "CSCA", None, None, 0, 0);
    signer := Cert([3], 3, "Signer", "CSCA", None, None, 0, 0);
    var lib := Library(_ => None, _ => root, _ => None, _ => None, _ => [], _ => "", _ => [], (_, _) => None,
                       (_, _) => true, (_, _, _, _) => true);
    t := Trust(lib, [renewed, root], x => x, [2]);
    forall depth: nat | depth > 0 ensures Climb(t, signer, depth) == Refused && ReachesRoot(t, signer, [signer, root]) {
      RenewedRootHidesThePinned(t, signer, renewed, root, depth);
    }
    RenewedRootHidesThePinned(t, signer, renewed, root, 1);
  }

  // ---- verify_and_extract ----

  // The certificates in order, each the first time it occurs.
  function FirstOccurrences(ders: seq<bytes>): (r: seq<bytes>)
    ensures forall d :: d in r <==> d in ders
    ensures forall i, j :: 0 <= i < j < |r| ==> r[i] != r[j]
  {
    if ders == [] then []
    else
      var n := |ders| - 1;
      var r := FirstOccurrences(ders[..n]);
      assert ders == ders[..n] + [ders[n]];
      if ders[n] in r then r else r + [ders[n]]
  }

  function Ders(certs: seq<Cert>): seq<bytes> {
    Map((c: Cert) => c.der, certs)
  }

  method ExtractCerts(sha256: bytes -> bytes, certs: seq<Cert>) returns (chunks: seq<bytes>)
    requires forall x, y :: sha256(x) == sha256(y) ==> x == y
    ensures chunks == FirstOccurrences(Ders(certs))
  {
    var seen: set<bytes> := {};
    chunks := [];
    for i := 0 to |certs|
      invariant chunks == FirstOccurrences(Ders(certs)[..i])
      invariant forall d :: sha256(d) in seen <==> d in chunks
    {
      var der := certs[i].der;
      var h := sha256(der);
      assert Ders(certs)[..i + 1] == Ders(certs)[..i] + [der];
      assert Ders(certs)[..i + 1][..i] == Ders(certs)[..i];
      if h !in seen {
        seen := seen + {h};
        chunks := chunks + [der];
      }
    }
    assert Ders(certs)[..|certs|] == Ders(certs);
  }

  // The signed content of the list, when every check before the climb passes.
  function SignedList(lib: Library, ml: bytes): Result<(Cms, Cert, bytes)> {
    match lib.parseCms(ml)
    case None => Err(ValueFault)
    case Some(cms) =>
      if !cms.isSignedData || cms.contentType != LIST_OID || cms.content.None? then Err(ValueFault)
      else if cms.signers == [] then Err(CrashFault)
      else
        var signer, content := cms.signers[0], cms.content.value;
        match SignerCert(cms, signer)
        case None => Err(CrashFault)
        case Some(cert) =>
          if signer.attrs != [] && LastDigest(signer.attrs).None? then Err(ValueFault)
          else if signer.attrs != [] && lib.digest(signer.digestAlgo, content).None? then Err(CrashFault)
          else if signer.attrs != [] && LastDigest(signer.attrs) != lib.digest(signer.digestAlgo, content) then
            Err(ValueFault)
          else if !lib.signed(cert, signer.digestAlgo, ToVerify(lib, signer, content), signer.signature) then
            Err(ValueFault)
          else Ok((cms, cert, content))
  }

  // The extracted anchors as a PEM bundle, one certificate after the other.
  function VerifyAndExtract(lib: Library, sha256: bytes -> bytes, pin: bytes, depth: nat,
                            ml: bytes): Result<seq<bytes>> {
    var (cms, signer, content) :- SignedList(lib, ml);
    match Climb(Trust(lib, cms.certs, sha256, pin), signer, depth)
    case TooDeep => Err(CrashFault)
    case Refused => Err(ValueFault)
    case Reached =>
      match lib.parseList(content)
      case None => Err(ValueFault)
      case Some(certs) => if certs == [] then Err(ValueFault) else Ok(FirstOccurrences(Ders(certs)))
  }

  // What a signed list is: its type, its first signer's certificate, the digest of exactly
  // this content among the signed attributes when there are any, and the signature.
  ghost predicate Signs(lib: Library, ml: bytes, cms: Cms, signer: Cert, content: bytes) {
    && lib.parseCms(ml) == Some(cms) && cms.isSignedData && cms.contentType == "2.23.136.1.1.2"
    && cms.content == Some(content) && cms.signers != [] && SignerCert(cms, cms.signers[0]) == Some(signer)
    && var info := cms.signers[0];
    && (info.attrs != [] ==>
          LastDigest(info.attrs).Some? && LastDigest(info.attrs) == lib.digest(info.digestAlgo, content))
    && lib.signed(signer, info.digestAlgo, if info.attrs == [] then content else lib.attrSet(info.attrs),
                  info.signature)
  }

  lemma SignedListIs(lib: Library, ml: bytes, cms: Cms, signer: Cert, content: bytes)
    ensures SignedList(lib, ml) == Ok((cms, signer, content)) <==> Signs(lib, ml, cms, signer, content)
  {}

  // A signed list crashes exactly when the climb does not end; else it is refused as a ValueError.
  lemma EndlessClimbCrashes(lib: Library, sha256: bytes -> bytes, pin: bytes, depth: nat, ml: bytes, cms: Cms,
                            signer: Cert, content: bytes)
    requires Signs(lib, ml, cms, signer, content)
    ensures VerifyAndExtract(lib, sha256, pin, depth, ml) == Err(CrashFault) <==>
            Climb(Trust(lib, cms.certs, sha256, pin), signer, depth) == TooDeep
    ensures VerifyAndExtract(lib, sha256, pin, depth, ml).Err? ==>
              VerifyAndExtract(lib, sha256, pin, depth, ml).fault in {ValueFault, CrashFault}
  {
    SignedListIs(lib, ml, cms, signer, content);
  }

  // Signed attributes without a digest are a ValueError.
  lemma DigestlessIsRefused(lib: Library, ml: bytes, cms: Cms)
    requires lib.parseCms(ml) == Some(cms) && cms.isSignedData && cms.contentType == "2.23.136.1.1.2"
    requires cms.content.Some? && cms.signers != [] && cms.certs != []
    requires cms.signers[0].attrs != [] && forall a :: a in cms.signers[0].attrs ==> !a.MessageDigest?
    ensures SignedList(lib, ml) == Err(ValueFault)
  {}

  ghost predicate VouchedBy(lib: Library, sha256: bytes -> bytes, pin: bytes, ml: bytes, anchors: seq<bytes>, cms: Cms,
                            signer: Cert, content: bytes, chain: seq<Cert>)
  {
    && Signs(lib, ml, cms, signer, content) && ReachesRoot(Trust(lib, cms.certs, sha256, pin), signer, chain)
    && lib.parseList(content).Some? && lib.parseList(content).value != []
    && IsDistinct(anchors, lib.parseList(content).value)
  }

  // The certificates of the list, each once, in the order in which they first occur.
  ghost predicate IsDistinct(anchors: seq<bytes>, certs: seq<Cert>) {
    && (forall d :: d in anchors <==> exists c :: c in certs && c.der == d)
    && (forall i, j :: 0 <= i < j < |anchors| ==> anchors[i] != anchors[j])
    && (forall i, j :: 0 <= i < j < |anchors| ==> Earlier(anchors[i], anchors[j], certs))
  }

  // Some certificate with the first encoding stands before every one with the second.
  ghost predicate Earlier(d: bytes, e: bytes, certs: seq<Cert>) {
    exists k :: 0 <= k < |certs| && certs[k].der == d && forall m :: 0 <= m <= k ==> certs[m].der != e
  }

  // The anchors a list may install: its own certificates, without duplicates, from content
  // that passed every check on its type, digest and signature, under a signer that chains to
  // the pinned root.
  ghost predicate Vouched(lib: Library, sha256: bytes -> bytes, pin: bytes, ml: bytes, anchors: seq<bytes>) {
    exists cms: Cms, signer: Cert, content: bytes, chain: seq<Cert> ::
      VouchedBy(lib, sha256, pin, ml, anchors, cms, signer, content, chain)
  }

  lemma {:induction false} FirstOccurrencesInOrder(certs: seq<Cert>)
    ensures IsDistinct(FirstOccurrences(Ders(certs)), certs)
  {
    if certs != [] {
      var n := |certs| - 1;
      FirstOccurrencesInOrder(certs[..n]);
      assert Ders(certs)[..n] == Ders(certs[..n]) && Ders(certs)[n] == certs[n].der;
      OneMoreOccurrence(certs, FirstOccurrences(Ders(certs[..n])));
    }
  }

  lemma EarlierInLonger(d: bytes, e: bytes, certs: seq<Cert>, n: nat)
    requires n <= |certs| && Earlier(d, e, certs[..n])
    ensures Earlier(d, e, certs)
  {
    var k :| 0 <= k < n && certs[..n][k].der == d && forall m :: 0 <= m <= k ==> certs[..n][m].der != e;
    assert certs[k] == certs[..n][k];
    forall m | 0 <= m <= k ensures certs[m].der != e {
      assert certs[m] == certs[..n][m];
    }
  }

  lemma EarlierThanLast(d: bytes, certs: seq<Cert>, n: nat)
    requires n == |certs| - 1
    requires (exists c :: c in certs[..n] && c.der == d) && forall c :: c in certs[..n] ==> c.der != certs[n].der
    ensures Earlier(d, certs[n].der, certs)
  {
    var c :| c in certs[..n] && c.der == d;
    var k :| 0 <= k < n && certs[..n][k] == c;
    assert certs[k].der == d;
    forall m | 0 <= m <= k ensures certs[m].der != certs[n].der {
      assert certs[m] in certs[..n];
    }
  }

  lemma OneMoreOccurrence(certs: seq<Cert>, r: seq<bytes>)
    requires certs != [] && IsDistinct(r, certs[..|certs| - 1])
    ensures IsDistinct(if certs[|certs| - 1].der in r then r else r + [certs[|certs| - 1].der], certs)
  {
    var n := |certs| - 1;
    var last := certs[n].der;
    var r' := if last in r then r else r + [last];
    assert certs == certs[..n] + [certs[n]];
    forall d ensures d in r' <==> exists c :: c in certs && c.der == d {
    }
    forall i, j | 0 <= i < j < |r'| ensures r'[i] != r'[j] && Earlier(r'[i], r'[j], certs) {
      if j < |r| {
        EarlierInLonger(r[i], r[j], certs, n);
      } else {
        assert r[i] in r;
        EarlierThanLast(r[i], certs, n);
      }
    }
  }

  lemma ExtractedAreVouched(lib: Library, sha256: bytes -> bytes, pin: bytes, depth: nat, ml: bytes)
    requires VerifyAndExtract(lib, sha256, pin, depth, ml).Ok?
    ensures Vouched(lib, sha256, pin, ml, VerifyAndExtract(lib, sha256, pin, depth, ml).value)
    ensures VerifyAndExtract(lib, sha256, pin, depth, ml).value != []
  {
    var (cms, signer, content) := SignedList(lib, ml).value;
    var chain := ReachedMeansChain(Trust(lib, cms.certs, sha256, pin), signer, depth);
    var certs := lib.parseList(content).value;
    SignedListIs(lib, ml, cms, signer, content);
    FirstOccurrencesInOrder(certs);
    assert Ders(certs)[0] in FirstOccurrences(Ders(certs));
    assert VouchedBy(lib, sha256, pin, ml, FirstOccurrences(Ders(certs)), cms, signer, content, chain);
  }

  // The other way: a signed list whose chain of first certifiers reaches the pinned root and
  // whose content lists certificates yields exactly these.
  lemma SignedListIsExtracted(lib: Library, sha256: bytes -> bytes, pin: bytes, ml: bytes, cms: Cms, signer: Cert,
                              content: bytes, depth: nat)
    requires Signs(lib, ml, cms, signer, content) && depth > |cms.certs|
    ensures var r, t := VerifyAndExtract(lib, sha256, pin, depth, ml), Trust(lib, cms.certs, sha256, pin);
            && (r.Ok? <==>
                  && (exists chain :: GreedyReachesRoot(t, signer, chain))
                  && lib.parseList(content).Some? && lib.parseList(content).value != [])
            && (r.Ok? ==> IsDistinct(r.value, lib.parseList(content).value))
  {
    var t := Trust(lib, cms.certs, sha256, pin);
    SignedListIs(lib, ml, cms, signer, content);
    ClimbSucceedsExactly(t, signer);
    EnoughDepth(t, signer, depth);
    if lib.parseList(content).Some? {
      FirstOccurrencesInOrder(lib.parseList(content).value);
    }
  }

  lemma EnoughDepth(t: Trust, signer: Cert, depth: nat)
    requires depth > |t.certs|
    ensures Climb(t, signer, depth) == Climb(t, signer, |t.certs| + 1)
  {
    if Climb(t, signer, depth) != TooDeep {
      DepthDecides(t, signer, depth);
    } else if Climb(t, signer, |t.certs| + 1) != TooDeep {
      MoreDepth(t, signer, |t.certs| + 1, depth);
    }
  }
}

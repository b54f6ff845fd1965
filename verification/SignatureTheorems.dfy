/** What a signature rule establishes end to end: in the wasm build, when it names only a keyless
    signer, when the trust root is fetched live, and about the provenance that decides. */
module SignatureTheorems {
  import opened Prelude
  import opened Ordering
  import opened Json
  import opened Policies
  import opened PolicyEval
  import opened PolicyTheorems
  import opened Evidence
  import opened Encoding
  import opened Envelope
  import opened Predicates
  import opened Engine
  import opened EngineTheorems
  import TrustRootCache
  import Pae

  const NO_RULE := SignatureRule(false, None, false)

  // The policy without its signature rule.
  function Unsigned(pol: Policy): Policy {
    pol.(signature := NO_RULE)
  }

  // --- wasm ------------------------------------------------------------------------------

  ghost predicate IsKeyed(lib: Libraries, att: Attestation, roots: TrustRoots) {
    VerifyKeyedBundle(lib, att.envelope, roots).Some?
  }

  ghost predicate IsKeyedSigned(lib: Libraries, att: Attestation, roots: TrustRoots) {
    IsKeyed(lib, att, roots) && VerifyKeyedBundle(lib, att.envelope, roots).value.verified
  }

  lemma WasmRunsOnKeyedEvidence(lib: Libraries, ev: Evidence, roots: TrustRoots)
    ensures var rs := SignatureResults(Wasm, lib, ev, roots);
            && (AnyAvailable(rs) <==> exists att | att in ev.attestations :: IsKeyed(lib, att, roots))
            && ((exists r | r in rs :: r.verified)
              <==> exists att | att in ev.attestations :: IsKeyedSigned(lib, att, roots))
            && (forall r | r in rs && r.verified :: r.issuer == "" && !r.rekorLogged)
  {
    hide VerifyKeyedBundle, VerifyKeyless;
    var rs := SignatureResults(Wasm, lib, ev, roots);
    forall i | 0 <= i < |ev.attestations|
      ensures rs[i].available <==> IsKeyed(lib, ev.attestations[i], roots)
      ensures rs[i].verified <==> IsKeyedSigned(lib, ev.attestations[i], roots)
      ensures rs[i].verified ==> rs[i].issuer == "" && !rs[i].rekorLogged
    {
      ResultsAreCoherent(Wasm, lib, i, ev.attestations[i], BlobSignature([], ""), roots);
    }
    forall att | att in ev.attestations
      ensures IsKeyed(lib, att, roots) ==> AnyAvailable(rs)
      ensures IsKeyedSigned(lib, att, roots) ==> exists r | r in rs :: r.verified
    {
      var i :| 0 <= i < |ev.attestations| && ev.attestations[i] == att;
      assert rs[i] in rs;
    }
  }

  /** A wasm run with a signature rule reports the verification unavailable exactly when no
      attestation is a keyed bundle. */
  lemma UnavailableInWasmIff(lib: Libraries, ev: Evidence, pol: Policy, roots: TrustRoots, d: Decision)
    requires SignatureRequested(pol.signature) && MayDecide(Wasm, lib, ev, pol, roots, d)
    ensures WithCode(SignatureVerificationUnavailable, d.reasons) != []
       <==> forall att | att in ev.attestations :: VerifyKeyedBundle(lib, att.envelope, roots).None?
  {
    hide VerifyKeyedBundle, SignatureResults;
    var v :| AreViewsOf(Wasm, lib, ev, roots, v) && IsDecision(pol, v, d.result, d.reasons);
    assert WithCode(SignatureVerificationUnavailable, d.reasons) == Verdict(pol, v, SignatureVerificationUnavailable);
    WasmRunsOnKeyedEvidence(lib, ev, roots);
  }

  /** A policy that requires a signature is not always denied in wasm: it is allowed exactly when
      some attestation is a keyed bundle that verifies, no log entry is required, the first such
      signer meets the keyless rule, and the rest complies. A keyless rule with an issuer cannot
      be met there. */
  lemma WasmAllowsSignedIff(lib: Libraries, ev: Evidence, pol: Policy, roots: TrustRoots, d: Decision)
    requires MayDecide(Wasm, lib, ev, pol, roots, d)
    requires Enforces(pol.mode) && pol.signature.required
    ensures d.result == Allow <==>
              && (exists att | att in ev.attestations :: IsKeyedSigned(lib, att, roots))
              && !pol.signature.rekorRequired
              && IdentityOfSigner(pol.signature, SignatureResults(Wasm, lib, ev, roots))
              && EvidenceComplies(Wasm, lib, ev, Unsigned(pol), roots)
    ensures pol.signature.keyless.Some? && pol.signature.keyless.value.issuer != "" ==> d.result == Deny
  {
    hide MayDecide, SignatureResults, ProvenanceComplies, VexComplies, SbomComplies, IdentityComplies, FindingsOk,
         IsKeyedSigned, IsKeyed;
    var rs := SignatureResults(Wasm, lib, ev, roots);
    AllowsExactlyCompliantEvidence(Wasm, lib, ev, pol, roots, d);
    WasmRunsOnKeyedEvidence(lib, ev, roots);
    FirstVerifiedIsFirst(rs);
    if r :| r in rs && r.verified {
      assert FirstVerified(rs).Some? && FirstVerified(rs).value in rs;
      assert FirstVerified(rs).value.verified;
    }
    EveryResultIsCoherent(Wasm, lib, ev, roots);
  }

  // --- A keyless rule alone ---------------------------------------------------------------

  lemma NativeAlwaysRuns(lib: Libraries, ev: Evidence, roots: TrustRoots)
    ensures AnyAvailable(SignatureResults(Native, lib, ev, roots)) <==> ev.attestations != [] || ev.blobSignature.Some?
  {
    hide VerifySignature, VerifyBlob;
    var rs := SignatureResults(Native, lib, ev, roots);
    if ev.attestations != [] {
      ResultsAreCoherent(Native, lib, 0, ev.attestations[0], BlobSignature([], ""), roots);
      assert rs[0] in rs && rs[0].available;
    } else if ev.blobSignature.Some? {
      ResultsAreCoherent(Native, lib, 0, Attestation("", []), ev.blobSignature.value, roots);
      assert rs[0] in rs && rs[0].available;
    }
  }

  // The verifier of the build can run on some of the evidence.
  ghost predicate SomethingRuns(build: Build, lib: Libraries, ev: Evidence, roots: TrustRoots) {
    if build.Native? then ev.attestations != [] || ev.blobSignature.Some?
    else exists att | att in ev.attestations :: IsKeyed(lib, att, roots)
  }

  /** A rule that names a keyless signer and requires nothing does not demand one. When nothing
      verifies, the engine allows exactly if the verifier could run at all and the rest complies:
      natively on any attestation or blob signature, of whatever content, and in wasm on any keyed
      bundle. */
  lemma KeylessRuleAloneIsOpenIff(build: Build, lib: Libraries, ev: Evidence, pol: Policy, roots: TrustRoots,
      d: Decision)
    requires MayDecide(build, lib, ev, pol, roots, d) && Enforces(pol.mode)
    requires pol.signature.keyless.Some? && !pol.signature.required && !pol.signature.rekorRequired
    requires forall r | r in SignatureResults(build, lib, ev, roots) :: !r.verified
    ensures d.result == Allow
       <==> SomethingRuns(build, lib, ev, roots) && EvidenceComplies(build, lib, ev, Unsigned(pol), roots)
  {
    hide MayDecide, SignatureResults, ProvenanceComplies, VexComplies, SbomComplies, IdentityComplies, FindingsOk,
        IsKeyed;
    AllowsExactlyCompliantEvidence(build, lib, ev, pol, roots, d);
    NativeAlwaysRuns(lib, ev, roots);
    WasmRunsOnKeyedEvidence(lib, ev, roots);
    UnsignedEvidencePassesIff(pol.signature, SignatureResults(build, lib, ev, roots));
  }

  // --- What the network decides -------------------------------------------------------------

  // The two differ at most in the live root and in what sigstore-go says.
  ghost predicate SameButNetwork(lib: Libraries, lib': Libraries) {
    lib' == lib.(liveRoot := lib'.liveRoot, keyless := lib'.keyless)
  }

  lemma {:induction false} SameLast(lib: Libraries, lib': Libraries, atts: seq<Attestation>, c: Class)
    requires SameButNetwork(lib, lib')
    ensures LastOf(lib, atts, c) == LastOf(lib', atts, c)
  {
    hide RouteOf, DecodeMembers;
    if atts != [] {
      SameLast(lib, lib', atts[..|atts| - 1], c);
    }
  }

  lemma SameSubjects(lib: Libraries, lib': Libraries, subjects: seq<map<string, string>>, art: ArtifactRef)
    requires SameButNetwork(lib, lib')
    ensures AnySubjectMatches(lib, subjects, art) <==> AnySubjectMatches(lib', subjects, art)
  {
    assert forall subject, alg ::
        AlgorithmMatches(lib, subject, art, alg) <==> AlgorithmMatches(lib', subject, art, alg);
    assert forall subject :: SubjectMatches(lib, subject, art) <==> SubjectMatches(lib', subject, art);
  }

  lemma SameProvenance(lib: Libraries, lib': Libraries, rule: SlsaRule, art: ArtifactRef, last: Option<DecodedEnvelope>)
    requires SameButNetwork(lib, lib')
    ensures ProvenanceComplies(rule, lib, art, last) <==> ProvenanceComplies(rule, lib', art, last)
  {
    hide AnySubjectMatches, BuilderAllowed, DeriveBuildLevel;
    if last.Some? && lib.parseStatement(last.value.payload).Some? {
      SameSubjects(lib, lib', lib.parseStatement(last.value.payload).value.subjects, art);
    }
  }

  // Compliance depends on the network only through the signature results.
  lemma SameCompliance(lib: Libraries, lib': Libraries, ev: Evidence, pol: Policy, roots: TrustRoots)
    requires SameButNetwork(lib, lib')
    ensures EvidenceComplies(Native, lib', ev, pol, roots)
       <==> SignaturesComply(pol.signature, SignatureResults(Native, lib', ev, roots))
            && EvidenceComplies(Native, lib, ev, Unsigned(pol), roots)
  {
    hide LastOf, SignatureResults, ProvenanceComplies, LastStatus, FirstLicense, FindingsOk;
    SameLast(lib, lib', ev.attestations, Slsa);
    SameLast(lib, lib', ev.attestations, Sbom);
    SameLast(lib, lib', ev.attestations, Vex);
    SameProvenance(lib, lib', pol.slsa, ev.artifact, LastOf(lib, ev.attestations, Slsa));
    var vex, sbom := LastOf(lib, ev.attestations, Vex), LastOf(lib, ev.attestations, Sbom);
    assert VexComplies(pol.vex, lib, vex) <==> VexComplies(pol.vex, lib', vex);
    assert SbomComplies(pol.sbom, lib, sbom) <==> SbomComplies(pol.sbom, lib', sbom);
    assert IdentityComplies(pol.identity, lib, ev, roots) <==> IdentityComplies(pol.identity, lib', ev, roots);
    assert SignaturesComply(NO_RULE, SignatureResults(Native, lib, ev, roots));
  }

  lemma SameViews(build: Build, lib: Libraries, lib': Libraries, ev: Evidence, roots: TrustRoots, v: Views)
    requires SameButNetwork(lib, lib')
    requires SignatureResults(build, lib, ev, roots) == SignatureResults(build, lib', ev, roots)
    ensures AreViewsOf(build, lib', ev, roots, v) ==> AreViewsOf(build, lib, ev, roots, v)
  {
    hide LastOf, SignatureResults, AnySubjectMatches, DeriveBuildLevel, RecordsLast, ComponentLicenses, IsFoldOf, Lists,
         AffectedSet, SbomViewOf;
    SameLast(lib, lib', ev.attestations, Slsa);
    SameLast(lib, lib', ev.attestations, Sbom);
    SameLast(lib, lib', ev.attestations, Vex);
    var last := LastOf(lib, ev.attestations, Slsa);
    if last.Some? && lib.parseStatement(last.value.payload).Some? {
      SameSubjects(lib, lib', lib.parseStatement(last.value.payload).value.subjects, ev.artifact);
    }
    if slots :| PresentsSlots(lib', ev, slots, v) {
      assert PresentsSlots(lib, ev, slots, v);
    }
  }

  // --- The live root over a run ---------------------------------------------------------------

  // A root that was found is still there at every later call. Its material can only change if the
  // background refresh of the live root is taken into account.
  ghost predicate Serves(refresh: bool, live: nat -> Option<bytes>) {
    forall a, b | a <= b && live(a).Some? :: live(b).Some? && (refresh || live(b) == live(a))
  }

  ghost predicate Network(lib: Libraries, lib': Libraries, refresh: bool) {
    SameButNetwork(lib, lib') && Serves(refresh, lib'.liveRoot)
  }

  // The first root among the answers to the calls up to n.
  ghost function FoundBy(answers: seq<Option<TrustRootCache.Root>>, calls: seq<nat>, n: nat)
    : Option<TrustRootCache.Root>
    requires |answers| == |calls|
  {
    if answers == [] then None
    else if calls[0] <= n && answers[0].Some? then answers[0]
    else FoundBy(answers[1..], calls[1..], n)
  }

  lemma {:induction false} FoundByIsFound(answers: seq<Option<TrustRootCache.Root>>, calls: seq<nat>, n: nat)
    requires |answers| == |calls|
    ensures match FoundBy(answers, calls, n)
            case None => forall k | 0 <= k < |calls| && calls[k] <= n :: answers[k].None?
            case Some(_) => exists k | 0 <= k < |calls| :: calls[k] <= n && answers[k] == FoundBy(answers, calls, n)
  {
    if answers != [] && !(calls[0] <= n && answers[0].Some?) {
      FoundByIsFound(answers[1..], calls[1..], n);
      if FoundBy(answers, calls, n).Some? {
        var k :| 0 <= k < |calls[1..]| && calls[1..][k] <= n && answers[1..][k] == FoundBy(answers, calls, n);
        assert calls[k + 1] <= n && answers[k + 1] == FoundBy(answers, calls, n);
      } else {
        forall k | 0 <= k < |calls| && calls[k] <= n ensures answers[k].None? {
          if k > 0 { assert calls[1..][k - 1] == calls[k] && answers[1..][k - 1] == answers[k]; }
        }
      }
    }
  }

  /** What the cache gives one caller is a live root as assumed here. Take any run of the cache and
      the consecutive calls in which an evaluation reached it: a live root with the answers they got
      serves, and serves without change if no refresh changes the material. */
  lemma CacheServes(run: seq<TrustRootCache.State>, c: TrustRootCache.Caller, lo: nat, hi: nat, calls: seq<nat>,
      material: (TrustRootCache.Root, nat) -> bytes) returns (live: nat -> Option<bytes>)
    requires TrustRootCache.IsRun(run)
    requires lo <= hi <= |TrustRootCache.ReturnsTo(c, run[|run| - 1].log)| && |calls| == hi - lo
    requires forall i, j | 0 <= i < j < |calls| :: calls[i] < calls[j]
    ensures Serves(true, live)
    ensures (forall root, m, n :: material(root, m) == material(root, n)) ==> Serves(false, live)
    ensures var answers := TrustRootCache.ReturnsTo(c, run[|run| - 1].log)[lo..hi];
            forall k | 0 <= k < |calls| ::
              live(calls[k]) == if answers[k].Some? then Some(material(answers[k].value, calls[k])) else None
  {
    hide TrustRootCache.ReturnsTo, FoundBy;
    var answers := TrustRootCache.ReturnsTo(c, run[|run| - 1].log)[lo..hi];
    TrustRootCache.RootsAreKept(run, c);
    assert TrustRootCache.Kept(answers);
    live := LiveFrom(answers, calls, material);
  }

  // The live root that gave these answers to these calls.
  lemma LiveFrom(answers: seq<Option<TrustRootCache.Root>>, calls: seq<nat>,
      material: (TrustRootCache.Root, nat) -> bytes) returns (live: nat -> Option<bytes>)
    requires TrustRootCache.Kept(answers) && |calls| == |answers|
    requires forall i, j | 0 <= i < j < |calls| :: calls[i] < calls[j]
    ensures Serves(true, live)
    ensures (forall root, m, n :: material(root, m) == material(root, n)) ==> Serves(false, live)
    ensures forall k | 0 <= k < |calls| ::
              live(calls[k]) == if answers[k].Some? then Some(material(answers[k].value, calls[k])) else None
  {
    hide FoundBy;
    var found := n requires true => FoundBy(answers, calls, n);
    live := n => if found(n).Some? then Some(material(found(n).value, n)) else None;
    forall n: nat
      ensures match found(n)
              case None => forall k | 0 <= k < |calls| && calls[k] <= n :: answers[k].None?
              case Some(_) => exists k | 0 <= k < |calls| :: calls[k] <= n && answers[k] == found(n)
    {
      FoundByIsFound(answers, calls, n);
    }
    forall a: nat, b: nat | a <= b && found(a).Some? ensures found(b) == found(a) {
      var k :| 0 <= k < |calls| && calls[k] <= a && answers[k] == found(a);
      assert answers[k].Some?;
      var l :| 0 <= l < |calls| && calls[l] <= b && answers[l] == found(b);
    }
  }

  // --- When the live root matters -------------------------------------------------------------

  // A well-formed blob signature that is left to sigstore-go.
  ghost predicate BlobIsKeyless(lib: Libraries, blob: BlobSignature, roots: TrustRoots) {
    && (exists digest :: NamesDigest(blob.artifactDigest, digest))
    && lib.parseJson(blob.bundle).Some? && ReadBlobBundle(lib.parseJson(blob.bundle).value).Some?
    && lib.parseBundle(blob.bundle).Some?
    && var b := ReadBlobBundle(lib.parseJson(blob.bundle).value).value;
       b.messageSignature.Some? && !ClaimsKeyed(b.material, roots)
  }

  // A bundle that is left to sigstore-go.
  ghost predicate IsKeyless(lib: Libraries, att: Attestation, roots: TrustRoots) {
    !IsKeyed(lib, att, roots) && lib.parseBundle(att.envelope).Some?
  }

  // Nothing is checked against the live root: the build cannot, a root is injected, or everything
  // is keyed or is no bundle that sigstore-go can parse.
  ghost predicate LiveRootIsUnused(build: Build, lib: Libraries, ev: Evidence, roots: TrustRoots) {
    || build.Wasm?
    || roots.sigstoreTUF != []
    || ((forall att | att in ev.attestations :: !IsKeyless(lib, att, roots))
        && (ev.blobSignature.Some? ==> !BlobIsKeyless(lib, ev.blobSignature.value, roots)))
  }

  // The digest a blob names, if it names one.
  ghost function NamedDigest(blob: BlobSignature): bytes {
    var cut := Cut(blob.artifactDigest);
    if cut.Some? && HexDecode(cut.value.1).Some? then HexDecode(cut.value.1).value else []
  }

  // A blob is left to sigstore-go under its named digest, or its answer is settled without the network.
  lemma BlobGoesToKeyless(lib: Libraries, lib': Libraries, call: nat, blob: BlobSignature, roots: TrustRoots)
    requires SameButNetwork(lib, lib')
    ensures VerifyBlob(Native, lib', call, blob, roots)
         == if BlobIsKeyless(lib, blob, roots)
            then VerifyKeyless(lib', call, blob.bundle, Some(NamedDigest(blob)), roots)
            else VerifyBlob(Native, lib, 0, blob, roots)
    ensures BlobIsKeyless(lib, blob, roots) ==> lib.parseBundle(blob.bundle).Some?
  {
    hide Decode, HexDecode, Cut, ReadBlobBundle, BlobDigestMatches, VerifyKeyless, NamesDigest, EqualFold;
    NamedDigestIsCut(blob.artifactDigest);
    var cut := Cut(blob.artifactDigest);
    if cut.Some? && HexDecode(cut.value.1).Some? {
      assert NamesDigest(blob.artifactDigest, NamedDigest(blob)) <==> cut.value.0 == "sha256" && cut.value.1 != "";
      if lib.parseBundle(blob.bundle).None? {
        NoBundleNoAnswer(lib, 0, blob.bundle, Some(NamedDigest(blob)), roots);
        NoBundleNoAnswer(lib', call, blob.bundle, Some(NamedDigest(blob)), roots);
      }
    }
  }

  lemma NoBundleNoAnswer(lib: Libraries, call: nat, bundle: bytes, digest: Option<bytes>, roots: TrustRoots)
    requires lib.parseBundle(bundle).None?
    ensures VerifyKeyless(lib, call, bundle, digest, roots) == REFUSED
  {
  }

  // An attestation is left to sigstore-go, or its answer is settled without the network.
  lemma AttestationGoesToKeyless(lib: Libraries, lib': Libraries, call: nat, att: Attestation, roots: TrustRoots)
    requires SameButNetwork(lib, lib')
    ensures VerifyKeyedBundle(lib, att.envelope, roots) == VerifyKeyedBundle(lib', att.envelope, roots)
    ensures VerifySignature(Native, lib', call, att, roots)
         == if IsKeyed(lib, att, roots) then VerifyKeyedBundle(lib, att.envelope, roots).value
            else if IsKeyless(lib, att, roots) then VerifyKeyless(lib', call, att.envelope, None, roots)
            else REFUSED
    ensures VerifySignature(Wasm, lib', call, att, roots)
         == if IsKeyed(lib, att, roots) then VerifyKeyedBundle(lib, att.envelope, roots).value else UNAVAILABLE
  {
    hide Decode, DecodePayload, ReadKeyedBundle;
  }

  // The network in which the live root is `live` and sigstore-go verifies what `accepts` says.
  function Answering(lib: Libraries, live: nat -> Option<bytes>,
      accepts: (bytes, SigstoreBundle, Option<bytes>) -> bool): Libraries
  {
    lib.(liveRoot := live,
         keyless := (root, bundle, digest) =>
           if accepts(root, bundle, digest) then KeylessVerified(Some(CertSummary("", "")), 1) else KeylessError)
  }

  lemma KeylessIn(lib: Libraries, live: nat -> Option<bytes>, accepts: (bytes, SigstoreBundle, Option<bytes>) -> bool,
      call: nat, bundle: bytes, digest: Option<bytes>, roots: TrustRoots)
    ensures var lib' := Answering(lib, live, accepts);
            VerifyKeyless(lib', call, bundle, digest, roots).verified <==>
              && ResolveRoot(lib', call, roots).Some? && lib.parseBundle(bundle).Some?
              && accepts(ResolveRoot(lib', call, roots).value, lib.parseBundle(bundle).value, digest)
  {
  }

  const THERE: nat -> Option<bytes> := n => Some([])
  const GONE: nat -> Option<bytes> := n => None

  ghost predicate SameAnswers(build: Build, lib1: Libraries, lib2: Libraries, ev: Evidence, roots: TrustRoots) {
    SignatureResults(build, lib1, ev, roots) == SignatureResults(build, lib2, ev, roots)
  }

  lemma UnusedRootIsUnseen(
    build: Build, lib: Libraries, lib1: Libraries, lib2: Libraries, ev: Evidence, roots: TrustRoots)
    requires LiveRootIsUnused(build, lib, ev, roots)
    requires SameButNetwork(lib, lib1) && SameButNetwork(lib, lib2) && lib1.keyless == lib2.keyless
    ensures SameAnswers(build, lib1, lib2, ev, roots)
  {
    hide VerifyKeyedBundle, VerifySignature, VerifyBlobNative, BlobIsKeyless, IsKeyed;
    forall i | 0 <= i < |ev.attestations|
      ensures VerifySignature(build, lib1, i, ev.attestations[i], roots)
           == VerifySignature(build, lib2, i, ev.attestations[i], roots)
    {
      AttestationGoesToKeyless(lib, lib1, i, ev.attestations[i], roots);
      AttestationGoesToKeyless(lib, lib2, i, ev.attestations[i], roots);
    }
    if ev.blobSignature.Some? {
      BlobGoesToKeyless(lib, lib1, |ev.attestations|, ev.blobSignature.value, roots);
      BlobGoesToKeyless(lib, lib2, |ev.attestations|, ev.blobSignature.value, roots);
    }
  }

  /** The condition under which no answer depends on what the live root is, or whether it could
      be fetched, is exact, with or without background refresh. */
  lemma LiveRootIsUnseenIff(build: Build, lib: Libraries, ev: Evidence, roots: TrustRoots, refresh: bool)
    ensures LiveRootIsUnused(build, lib, ev, roots)
       <==> forall lib1, lib2 | Network(lib, lib1, refresh) && Network(lib, lib2, refresh)
           && lib1.keyless == lib2.keyless ::
              SameAnswers(build, lib1, lib2, ev, roots)
  {
    hide VerifyKeyedBundle, VerifySignature, VerifyBlobNative, BlobIsKeyless, SameAnswers;
    if LiveRootIsUnused(build, lib, ev, roots) {
      forall lib1, lib2 | Network(lib, lib1, refresh) && Network(lib, lib2, refresh) && lib1.keyless == lib2.keyless
        ensures SameAnswers(build, lib1, lib2, ev, roots)
      {
        UnusedRootIsUnseen(build, lib, lib1, lib2, ev, roots);
      }
    } else {
      UsedRootIsSeen(lib, ev, roots);
      var all := (root, bundle, digest) => true;
      var lib1, lib2 := Answering(lib, THERE, all), Answering(lib, GONE, all);
      assert Network(lib, lib1, refresh) && Network(lib, lib2, refresh) && lib1.keyless == lib2.keyless;
    }
  }

  lemma UsedRootIsSeen(lib: Libraries, ev: Evidence, roots: TrustRoots)
    requires !LiveRootIsUnused(Native, lib, ev, roots)
    ensures var all := (root, bundle, digest) => true;
            !SameAnswers(Native, Answering(lib, THERE, all), Answering(lib, GONE, all), ev, roots)
  {
    hide VerifyKeyedBundle, VerifySignature, VerifyBlobNative, BlobIsKeyless, IsKeyed;
    var all := (root, bundle, digest) => true;
    var lib1, lib2 := Answering(lib, THERE, all), Answering(lib, GONE, all);
    var rs1, rs2 := SignatureResults(Native, lib1, ev, roots), SignatureResults(Native, lib2, ev, roots);
    if i :| 0 <= i < |ev.attestations| && IsKeyless(lib, ev.attestations[i], roots) {
      AttestationGoesToKeyless(lib, lib1, i, ev.attestations[i], roots);
      AttestationGoesToKeyless(lib, lib2, i, ev.attestations[i], roots);
      assert rs1[i].verified && !rs2[i].verified;
    } else {
      var n := |ev.attestations|;
      BlobGoesToKeyless(lib, lib1, n, ev.blobSignature.value, roots);
      BlobGoesToKeyless(lib, lib2, n, ev.blobSignature.value, roots);
      assert rs1[n].verified && !rs2[n].verified;
    }
  }

  /** Then two runs at the same time of day return the same decision even if one of them could
      not fetch the live root. */
  lemma LiveRootCannotFlip(build: Build, lib: Libraries, lib': Libraries, ev: Evidence, pol: Policy, roots: TrustRoots,
      d: Decision, d': Decision)
    requires LiveRootIsUnused(build, lib, ev, roots) && lib' == lib.(liveRoot := lib'.liveRoot)
    requires MayDecide(build, lib, ev, pol, roots, d) && MayDecide(build, lib', ev, pol, roots, d')
    requires d.decidedAt == d'.decidedAt
    ensures d == d'
  {
    hide AreViewsOf, IsDecision, LiveRootIsUnused, IsSummaryOf;
    UnusedRootIsUnseen(build, lib, lib, lib', ev, roots);
    var v :| AreViewsOf(build, lib', ev, roots, v) && IsDecision(pol, v, d'.result, d'.reasons);
    SameViews(build, lib, lib', ev, roots, v);
    EvaluateIsDeterministic(build, lib, ev, pol, roots, d, d');
  }

  // --- Whose signature it is, and over what -----------------------------------------------------

  // The members of the document, if it is one.
  ghost function MembersOf(lib: Libraries, envelope: bytes): seq<Member> {
    match lib.parseJson(envelope)
    case None => []
    case Some(j) => if Fields(j).Some? then Fields(j).value else []
  }

  /** The type and payload that the verifier of this attestation checks: for a keyed bundle what it
      holds under content, else what sigstore-go finds in it. */
  ghost predicate Covers(lib: Libraries, att: Attestation, roots: TrustRoots, env: DecodedEnvelope) {
    if IsKeyed(lib, att, roots) then BundleHolds(MembersOf(lib, att.envelope), env.payloadType, env.payload)
    else lib.parseBundle(att.envelope).Some?
         && lib.parseBundle(att.envelope).value.envelope == Some((env.payloadType, env.payload))
  }

  /** This very type and payload were signed: by the bundle's own leaf in the bundle's own signature,
      or, for a keyless bundle, as the envelope of the bundle sigstore-go verified. */
  ghost predicate IsSigned(lib: Libraries, call: nat, att: Attestation, roots: TrustRoots, env: DecodedEnvelope) {
    && Covers(lib, att, roots, env)
    && if IsKeyed(lib, att, roots)
       then BundleSigns(lib, roots, MembersOf(lib, att.envelope), env.payloadType, env.payload)
       else exists cert, n :: KeylessBacked(lib, call, att.envelope, None, roots, cert, n)
  }

  lemma SignedIsVerifiedAndCovered(lib: Libraries, call: nat, att: Attestation, roots: TrustRoots, env: DecodedEnvelope)
    ensures IsSigned(lib, call, att, roots, env)
       <==> Covers(lib, att, roots, env) && VerifySignature(Native, lib, call, att, roots).verified
  {
    hide VerifyKeyedMembers, BundleSigns, VerifyKeyless, KeylessBacked, BundleHolds;
    var m := MembersOf(lib, att.envelope);
    if IsKeyed(lib, att, roots) {
      assert VerifyKeyedBundle(lib, att.envelope, roots) == VerifyKeyedMembers(lib, m, roots);
      KeyedVerifiedIff(lib, m, roots);
      forall t, p | BundleHolds(m, t, p) && BundleHolds(m, env.payloadType, env.payload)
        ensures t == env.payloadType && p == env.payload
      {
        HoldsOneThing(m, t, p, env.payloadType, env.payload);
      }
    } else {
      KeylessVerifiedIff(lib, call, att.envelope, None, roots);
    }
  }

  lemma HoldsOneThing(m: seq<Member>, t: string, p: bytes, t': string, p': bytes)
    requires BundleHolds(m, t, p) && BundleHolds(m, t', p')
    ensures t == t' && p == p'
  {
  }

  /** For a keyed bundle the router opens what the verifier checks unless the document overrides it. */
  lemma UnlessOverriddenItIsCovered(lib: Libraries, att: Attestation, roots: TrustRoots)
    requires IsKeyed(lib, att, roots) && DecodeDSSE(lib, att.envelope).Some?
    requires !Overridden(MembersOf(lib, att.envelope))
    ensures Covers(lib, att, roots, DecodeDSSE(lib, att.envelope).value)
  {
    hide DecodeMembers, Overridden, ReadKeyedBundle, BundleHolds;
    assert ReadKeyedBundle(MembersOf(lib, att.envelope)).Some? by { KeyedIsReadable(lib, att, roots); }
    RoutedComesFromContent(MembersOf(lib, att.envelope));
  }

  lemma KeyedIsReadable(lib: Libraries, att: Attestation, roots: TrustRoots)
    requires IsKeyed(lib, att, roots)
    ensures ReadKeyedBundle(MembersOf(lib, att.envelope)).Some?
  {
    hide ReadKeyedBundle, Decode, DecodePayload, Pae.Pae;
  }

  // --- When the deciding provenance must be signed ------------------------------------------------

  // Some answer of the network verifies this attestation, this blob, anything.
  ghost predicate MayVerify(lib: Libraries, att: Attestation, roots: TrustRoots) {
    IsKeyedSigned(lib, att, roots) || (IsKeyless(lib, att, roots) && SomeRoot(lib, roots))
  }

  ghost predicate BlobMayVerify(lib: Libraries, blob: BlobSignature, roots: TrustRoots) {
    if BlobIsKeyless(lib, blob, roots) then SomeRoot(lib, roots) else VerifyBlob(Native, lib, 0, blob, roots).verified
  }

  ghost predicate SomethingMayVerify(lib: Libraries, ev: Evidence, roots: TrustRoots) {
    || (exists att | att in ev.attestations :: MayVerify(lib, att, roots))
    || (ev.blobSignature.Some? && BlobMayVerify(lib, ev.blobSignature.value, roots))
  }

  ghost predicate SomeRoot(lib: Libraries, roots: TrustRoots) {
    roots.sigstoreTUF == [] || lib.parseRoot(roots.sigstoreTUF).Some?
  }

  // Attestations j and i are one keyless bundle, and i meets the root that j met: an injected one,
  // or, without refresh, the live one after j found it.
  ghost predicate SharesItsFate(lib: Libraries, ev: Evidence, roots: TrustRoots, refresh: bool, j: nat, i: nat)
    requires j < |ev.attestations| && i < |ev.attestations|
  {
    && IsKeyless(lib, ev.attestations[j], roots) && IsKeyless(lib, ev.attestations[i], roots)
    && lib.parseBundle(ev.attestations[j].envelope) == lib.parseBundle(ev.attestations[i].envelope)
    && (roots.sigstoreTUF != [] || (!refresh && j < i))
  }

  // Nothing verifies without attestation i verifying.
  ghost predicate NeedsSigner(lib: Libraries, ev: Evidence, roots: TrustRoots, refresh: bool, i: nat)
    requires i < |ev.attestations|
  {
    || IsKeyedSigned(lib, ev.attestations[i], roots)
    || ((forall j | 0 <= j < |ev.attestations| && j != i && MayVerify(lib, ev.attestations[j], roots) ::
           SharesItsFate(lib, ev, roots, refresh, j, i))
        && (ev.blobSignature.Some? ==> !BlobMayVerify(lib, ev.blobSignature.value, roots)))
  }

  /** Nothing may verify at all; or nothing verifies without attestation i, and what its verifier
      checks is what the router opens. */
  ghost predicate MustBeSigned(lib: Libraries, ev: Evidence, roots: TrustRoots, refresh: bool, i: nat)
    requires i < |ev.attestations|
  {
    SomethingMayVerify(lib, ev, roots) ==>
      && NeedsSigner(lib, ev, roots, refresh, i)
      && DecodeDSSE(lib, ev.attestations[i].envelope).Some?
      && Covers(lib, ev.attestations[i], roots, DecodeDSSE(lib, ev.attestations[i].envelope).value)
  }

  ghost predicate SomethingVerified(lib: Libraries, ev: Evidence, roots: TrustRoots) {
    exists r | r in SignatureResults(Native, lib, ev, roots) :: r.verified
  }

  lemma OneVerified(lib: Libraries, ev: Evidence, roots: TrustRoots, j: nat)
    requires j < |ev.attestations| && VerifySignature(Native, lib, j, ev.attestations[j], roots).verified
    ensures SomethingVerified(lib, ev, roots)
  {
    hide VerifySignature, VerifyBlob;
    assert SignatureResults(Native, lib, ev, roots)[j].verified;
  }

  lemma VerifiedMayVerify(lib: Libraries, lib': Libraries, ev: Evidence, roots: TrustRoots)
    requires SameButNetwork(lib, lib') && SomethingVerified(lib', ev, roots)
    ensures SomethingMayVerify(lib, ev, roots)
  {
    hide VerifyKeyedBundle, VerifySignature, VerifyBlobNative, BlobIsKeyless;
    var rs := SignatureResults(Native, lib', ev, roots);
    var j :| 0 <= j < |rs| && rs[j].verified;
    if j < |ev.attestations| {
      AttestationGoesToKeyless(lib, lib', j, ev.attestations[j], roots);
      assert MayVerify(lib, ev.attestations[j], roots);
    } else {
      BlobGoesToKeyless(lib, lib', j, ev.blobSignature.value, roots);
    }
  }

  lemma NeededSignerVerifies(lib: Libraries, lib': Libraries, ev: Evidence, roots: TrustRoots, refresh: bool, i: nat)
    requires Network(lib, lib', refresh) && SomethingVerified(lib', ev, roots)
    requires i < |ev.attestations| && NeedsSigner(lib, ev, roots, refresh, i)
    ensures VerifySignature(Native, lib', i, ev.attestations[i], roots).verified
  {
    hide VerifyKeyedBundle, VerifySignature, VerifyBlobNative, BlobIsKeyless;
    var rs := SignatureResults(Native, lib', ev, roots);
    var j :| 0 <= j < |rs| && rs[j].verified;
    AttestationGoesToKeyless(lib, lib', i, ev.attestations[i], roots);
    if j < |ev.attestations| {
      AttestationGoesToKeyless(lib, lib', j, ev.attestations[j], roots);
      assert MayVerify(lib, ev.attestations[j], roots);
    } else {
      BlobGoesToKeyless(lib, lib', j, ev.blobSignature.value, roots);
    }
  }

  // If anything may verify, it does in this network.
  lemma ItVerifiesSomewhere(lib: Libraries, ev: Evidence, roots: TrustRoots)
    requires SomethingMayVerify(lib, ev, roots)
    ensures SomethingVerified(Answering(lib, THERE, (root, bundle, digest) => true), ev, roots)
  {
    hide VerifyKeyedBundle, VerifySignature, VerifyBlobNative, BlobIsKeyless;
    var lib' := Answering(lib, THERE, (root, bundle, digest) => true);
    var rs := SignatureResults(Native, lib', ev, roots);
    if j :| 0 <= j < |ev.attestations| && MayVerify(lib, ev.attestations[j], roots) {
      AttestationGoesToKeyless(lib, lib', j, ev.attestations[j], roots);
      assert rs[j].verified;
    } else {
      BlobGoesToKeyless(lib, lib', |ev.attestations|, ev.blobSignature.value, roots);
      assert rs[|ev.attestations|].verified;
    }
  }

  // A network in which attestation j verifies and attestation i does not.
  lemma OnlyTheOtherVerifies(lib: Libraries, ev: Evidence, roots: TrustRoots, refresh: bool, i: nat, j: nat)
    returns (lib': Libraries)
    requires i < |ev.attestations| && j < |ev.attestations| && j != i && !IsKeyedSigned(lib, ev.attestations[i], roots)
    requires MayVerify(lib, ev.attestations[j], roots) && !SharesItsFate(lib, ev, roots, refresh, j, i)
    ensures Network(lib, lib', refresh) && SomethingVerified(lib', ev, roots)
    ensures !VerifySignature(Native, lib', i, ev.attestations[i], roots).verified
  {
    hide VerifyKeyedBundle, VerifySignature, BlobIsKeyless, VerifyBlobNative, VerifyKeyless, SomethingVerified;
    var a, b := ev.attestations[i], ev.attestations[j];
    var his := lib.parseBundle(b.envelope);
    var live, accepts := THERE, (root: bytes, bundle: SigstoreBundle, digest: Option<bytes>) => Some(bundle) == his;
    if IsKeyed(lib, b, roots) {
      accepts := (root, bundle, digest) => false;
    } else if !IsKeyed(lib, a, roots) && lib.parseBundle(a.envelope) == his && roots.sigstoreTUF == [] {
      if j > i {
        live := n => if n >= j then Some([]) else None;
      } else {
        live, accepts := n => Some(if n == j then [1] else []), (root, bundle, digest) => root == [1];
      }
    }
    lib' := Answering(lib, live, accepts);
    AttestationGoesToKeyless(lib, lib', i, a, roots);
    AttestationGoesToKeyless(lib, lib', j, b, roots);
    KeylessIn(lib, live, accepts, i, a.envelope, None, roots);
    KeylessIn(lib, live, accepts, j, b.envelope, None, roots);
    OneVerified(lib', ev, roots, j);
  }

  // A network in which something verifies and attestation i does not.
  lemma SomethingElseVerifies(lib: Libraries, ev: Evidence, roots: TrustRoots, refresh: bool, i: nat)
    returns (lib': Libraries)
    requires i < |ev.attestations| && !NeedsSigner(lib, ev, roots, refresh, i)
    ensures Network(lib, lib', refresh) && SomethingVerified(lib', ev, roots)
    ensures !VerifySignature(Native, lib', i, ev.attestations[i], roots).verified
  {
    hide VerifyKeyedBundle, VerifySignature, VerifyBlobNative, BlobIsKeyless, SharesItsFate, MayVerify;
    var n := |ev.attestations|;
    if j :| && 0 <= j < n && j != i && MayVerify(lib, ev.attestations[j], roots)
            && !SharesItsFate(lib, ev, roots, refresh, j, i)
    {
      lib' := OnlyTheOtherVerifies(lib, ev, roots, refresh, i, j);
    } else {
      lib' := Answering(lib, THERE, (root, bundle, digest: Option<bytes>) => digest.Some?);
      AttestationGoesToKeyless(lib, lib', i, ev.attestations[i], roots);
      BlobGoesToKeyless(lib, lib', n, ev.blobSignature.value, roots);
      assert SignatureResults(Native, lib', ev, roots)[n].verified;
    }
  }

  /** The type and payload of the provenance that decides were signed, in attestation i. */
  ghost predicate ProvenanceIsSigned(lib: Libraries, ev: Evidence, roots: TrustRoots, i: nat)
    requires i < |ev.attestations|
  {
    && LastOf(lib, ev.attestations, Slsa).Some?
    && IsSigned(lib, i, ev.attestations[i], roots, LastOf(lib, ev.attestations, Slsa).value)
  }

  lemma ProvenanceIsSignedIff(lib: Libraries, lib': Libraries, ev: Evidence, roots: TrustRoots, i: nat)
    requires SameButNetwork(lib, lib') && IsLastOf(lib, ev.attestations, Slsa, i)
    ensures DecodeDSSE(lib, ev.attestations[i].envelope).Some?
    ensures ProvenanceIsSigned(lib', ev, roots, i)
       <==> Covers(lib, ev.attestations[i], roots, DecodeDSSE(lib, ev.attestations[i].envelope).value)
            && VerifySignature(Native, lib', i, ev.attestations[i], roots).verified
  {
    hide VerifyKeyedBundle, VerifySignature, LastOf, ClassOf, DecodeDSSE, BundleHolds, IsSigned, IsKeyless;
    var att := ev.attestations[i];
    LastOfIsLast(lib, ev.attestations, Slsa, i);
    SameLast(lib, lib', ev.attestations, Slsa);
    SignedIsVerifiedAndCovered(lib', i, att, roots, LastOf(lib, ev.attestations, Slsa).value);
    AttestationGoesToKeyless(lib, lib', i, att, roots);
  }

  /** Required signature and deciding provenance are checked apart. Let attestation i be the
      provenance that decides and let everything but the signature comply. Whatever the network
      answers, evidence is only allowed if the type and payload of that provenance were signed: that
      holds if and only if MustBeSigned. */
  lemma DecidingProvenanceIsSignedIff(
    lib: Libraries, ev: Evidence, pol: Policy, roots: TrustRoots, refresh: bool, i: nat)
    requires pol.signature == SignatureRule(true, None, false) && SlsaInScope(pol.slsa)
    requires IsLastOf(lib, ev.attestations, Slsa, i) && EvidenceComplies(Native, lib, ev, Unsigned(pol), roots)
    ensures MustBeSigned(lib, ev, roots, refresh, i)
       <==> forall lib' | Network(lib, lib', refresh) && EvidenceComplies(Native, lib', ev, pol, roots) ::
              ProvenanceIsSigned(lib', ev, roots, i)
  {
    hide VerifySignature, EvidenceComplies, NeedsSigner, SignatureResults, Covers, ProvenanceIsSigned,
         SomethingMayVerify, Serves, ClassOf, DecodeDSSE;
    forall lib' | Network(lib, lib', refresh)
      ensures EvidenceComplies(Native, lib', ev, pol, roots) <==> SomethingVerified(lib', ev, roots)
      ensures SomethingVerified(lib', ev, roots) && MustBeSigned(lib, ev, roots, refresh, i) ==>
                ProvenanceIsSigned(lib', ev, roots, i)
    {
      RequiredIsVerified(lib, lib', ev, pol, roots);
      ProvenanceIsSignedIff(lib, lib', ev, roots, i);
      if SomethingVerified(lib', ev, roots) && MustBeSigned(lib, ev, roots, refresh, i) {
        VerifiedMayVerify(lib, lib', ev, roots);
        NeededSignerVerifies(lib, lib', ev, roots, refresh, i);
      }
    }
    if !MustBeSigned(lib, ev, roots, refresh, i) {
      var lib' := Answering(lib, THERE, (root, bundle, digest) => true);
      if NeedsSigner(lib, ev, roots, refresh, i) {
        ItVerifiesSomewhere(lib, ev, roots);
        assert Network(lib, lib', refresh) by { ThereServes(lib, refresh, (root, bundle, digest) => true); }
      } else {
        lib' := SomethingElseVerifies(lib, ev, roots, refresh, i);
      }
      ProvenanceIsSignedIff(lib, lib', ev, roots, i);
    }
  }

  lemma ThereServes(lib: Libraries, refresh: bool, accepts: (bytes, SigstoreBundle, Option<bytes>) -> bool)
    ensures Network(lib, Answering(lib, THERE, accepts), refresh)
  {
  }

  lemma RequiredIsVerified(lib: Libraries, lib': Libraries, ev: Evidence, pol: Policy, roots: TrustRoots)
    requires SameButNetwork(lib, lib') && pol.signature == SignatureRule(true, None, false)
    requires EvidenceComplies(Native, lib, ev, Unsigned(pol), roots)
    ensures EvidenceComplies(Native, lib', ev, pol, roots) <==> SomethingVerified(lib', ev, roots)
  {
    hide EvidenceComplies, SignatureResults;
    SameCompliance(lib, lib', ev, pol, roots);
    EveryResultIsCoherent(Native, lib', ev, roots);
  }

  /** A keyed bundle that verifies is the signer of the provenance it decides exactly when it holds
      under content what the router opens; without an override it does. */
  lemma KeyedMustBeSignedIff(lib: Libraries, ev: Evidence, roots: TrustRoots, refresh: bool, i: nat)
    requires IsLastOf(lib, ev.attestations, Slsa, i) && IsKeyedSigned(lib, ev.attestations[i], roots)
    ensures LastOf(lib, ev.attestations, Slsa).Some?
    ensures var m, env := MembersOf(lib, ev.attestations[i].envelope), LastOf(lib, ev.attestations, Slsa).value;
            && (MustBeSigned(lib, ev, roots, refresh, i) <==> BundleHolds(m, env.payloadType, env.payload))
            && (!Overridden(m) ==> MustBeSigned(lib, ev, roots, refresh, i))
  {
    hide VerifyKeyedBundle, LastOf, ClassOf, DecodeDSSE, BundleHolds, Overridden, MembersOf, BlobMayVerify,
        SharesItsFate;
    LastOfIsLast(lib, ev.attestations, Slsa, i);
    assert MayVerify(lib, ev.attestations[i], roots) && ev.attestations[i] in ev.attestations;
    if !Overridden(MembersOf(lib, ev.attestations[i].envelope)) {
      UnlessOverriddenItIsCovered(lib, ev.attestations[i], roots);
    }
  }

  /** For every policy that requires a signature or a log entry: under MustBeSigned, evidence that is
      allowed has the type and payload of its deciding provenance signed. */
  lemma AllowedProvenanceIsSigned(
    lib: Libraries, ev: Evidence, pol: Policy, roots: TrustRoots, refresh: bool, d: Decision, i: nat)
    requires MayDecide(Native, lib, ev, pol, roots, d) && Enforces(pol.mode) && d.result == Allow
    requires pol.signature.required || pol.signature.rekorRequired
    requires Serves(refresh, lib.liveRoot)
    requires IsLastOf(lib, ev.attestations, Slsa, i) && MustBeSigned(lib, ev, roots, refresh, i)
    ensures ProvenanceIsSigned(lib, ev, roots, i)
  {
    hide MayDecide, SignatureResults, ProvenanceComplies, VexComplies, SbomComplies, IdentityComplies, FindingsOk,
         VerifySignature, NeedsSigner, SomethingMayVerify, Covers, LastOf, ClassOf, Serves, ProvenanceIsSigned;
    var rs := SignatureResults(Native, lib, ev, roots);
    AllowsExactlyCompliantEvidence(Native, lib, ev, pol, roots, d);
    FirstVerifiedIsFirst(rs);
    if FirstVerified(rs).Some? {
      var k :| 0 <= k < |rs| && rs[k] == FirstVerified(rs).value && rs[k].verified;
      assert rs[k] in rs;
    }
    VerifiedMayVerify(lib, lib, ev, roots);
    NeededSignerVerifies(lib, lib, ev, roots, refresh, i);
    ProvenanceIsSignedIff(lib, lib, ev, roots, i);
  }
}
